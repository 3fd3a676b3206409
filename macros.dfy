/** The subject schema generator: subject names become enum variant names
    (spaces removed, then every run of characters outside [0-9a-zA-Z]
    replaced by one '_'), and variants are emitted in ascending id order,
    as a `BTreeMap` iterates. */
module SchemaMacro {

  predicate IsAsciiAlnum(c: char)
  {
    ('0' <= c <= '9') || ('a' <= c <= 'z') || ('A' <= c <= 'Z')
  }

  /** Only ASCII letters, digits and '_'. */
  predicate IdentChars(s: string)
  {
    forall i :: 0 <= i < |s| ==> IsAsciiAlnum(s[i]) || s[i] == '_'
  }

  /** No two '_' side by side. */
  predicate NoDoubleUnderscore(s: string)
  {
    forall i :: 0 <= i < |s| - 1 ==> !(s[i] == '_' && s[i + 1] == '_')
  }

  /** The ASCII letters and digits of `s`, in order. */
  function AlnumOnly(s: string): (r: string)
    ensures forall i :: 0 <= i < |r| ==> IsAsciiAlnum(r[i])
  {
    if s == [] then []
    else if IsAsciiAlnum(s[0]) then [s[0]] + AlnumOnly(s[1..])
    else AlnumOnly(s[1..])
  }

  /** `replace(' ', "")`: every space removed, everything else kept in
      order. */
  function RemoveSpaces(s: string): (r: string)
    ensures ' ' !in r
    ensures |r| <= |s|
  {
    if s == [] then []
    else if s[0] == ' ' then RemoveSpaces(s[1..])
    else [s[0]] + RemoveSpaces(s[1..])
  }

  /** The length of the run of non-alphanumeric characters that `s` starts
      with: the greedy match of `[^0-9a-zA-Z]+`. */
  function RunLength(s: string): (n: nat)
    requires s != [] && !IsAsciiAlnum(s[0])
    ensures 0 < n <= |s|
    ensures forall i :: 0 <= i < n ==> !IsAsciiAlnum(s[i])
    ensures n == |s| || IsAsciiAlnum(s[n])
  {
    if |s| == 1 || IsAsciiAlnum(s[1]) then 1 else 1 + RunLength(s[1..])
  }

  /** `replace_all` of `[^0-9a-zA-Z]+` by "_", scanning left to right. */
  function ReplaceRuns(s: string): (r: string)
    ensures |r| <= |s|
    ensures (r == []) == (s == [])
    ensures r != [] ==> (r[0] == '_') == !IsAsciiAlnum(s[0])
    decreases |s|
  {
    if s == [] then []
    else if IsAsciiAlnum(s[0]) then [s[0]] + ReplaceRuns(s[1..])
    else ['_'] + ReplaceRuns(s[RunLength(s)..])
  }


  // ---------------------------------------------------------------------
  // Properties of the name transformation

  /** Removing spaces keeps every other character, in order. */
  lemma {:induction false} RemoveSpacesKeepsAlnum(s: string)
    ensures AlnumOnly(RemoveSpaces(s)) == AlnumOnly(s)
    ensures ' ' !in s ==> RemoveSpaces(s) == s
  {
    if s != [] {
      RemoveSpacesKeepsAlnum(s[1..]);
      if s[0] != ' ' {
        assert ([s[0]] + RemoveSpaces(s[1..]))[1..] == RemoveSpaces(s[1..]);
      }
      if ' ' !in s {
        assert ' ' !in s[1..];
      }
    }
  }

  /** A run of non-alphanumerics contributes nothing to `AlnumOnly`. */
  lemma {:induction false} AlnumOnlySkipsRun(s: string, n: nat)
    requires n <= |s|
    requires forall i :: 0 <= i < n ==> !IsAsciiAlnum(s[i])
    ensures AlnumOnly(s) == AlnumOnly(s[n..])
    decreases n
  {
    if n > 0 {
      AlnumOnlySkipsRun(s[1..], n - 1);
      assert s[1..][n - 1..] == s[n..];
    }
  }

  /** The output holds only letters, digits and '_', never "__", and the
      letters and digits of the input in their original order. */
  lemma {:induction false} ReplaceRunsShape(s: string)
    ensures IdentChars(ReplaceRuns(s))
    ensures NoDoubleUnderscore(ReplaceRuns(s))
    ensures AlnumOnly(ReplaceRuns(s)) == AlnumOnly(s)
    decreases |s|
  {
    if s != [] {
      var r := ReplaceRuns(s);
      if IsAsciiAlnum(s[0]) {
        ReplaceRunsShape(s[1..]);
        assert r[1..] == ReplaceRuns(s[1..]);
      } else {
        var n := RunLength(s);
        var rest := ReplaceRuns(s[n..]);
        ReplaceRunsShape(s[n..]);
        assert r[1..] == rest;
        assert rest != [] ==> rest[0] != '_';
        AlnumOnlySkipsRun(s, n);
      }
    }
  }

  /** A string already made of letters, digits and single '_'s is left
      unchanged. */
  lemma {:induction false} ReplaceRunsFixed(s: string)
    requires IdentChars(s) && NoDoubleUnderscore(s)
    ensures ReplaceRuns(s) == s
    decreases |s|
  {
    if s != [] {
      assert IdentChars(s[1..]) && NoDoubleUnderscore(s[1..]);
      ReplaceRunsFixed(s[1..]);
      if !IsAsciiAlnum(s[0]) {
        assert |s| == 1 || s[1] != '_';
        assert RunLength(s) == 1;
      }
    }
  }

  /** The variant name generated for a subject name: a valid identifier
      body without "__" that keeps the name's letters and digits in order. */
  function Sanitise(name: string): (r: string)
    ensures IdentChars(r)
    ensures NoDoubleUnderscore(r)
    ensures AlnumOnly(r) == AlnumOnly(name)
  {
    ReplaceRunsShape(RemoveSpaces(name));
    RemoveSpacesKeepsAlnum(name);
    ReplaceRuns(RemoveSpaces(name))
  }

  /** Sanitising twice is sanitising once. */
  lemma SanitiseIdempotent(name: string)
    ensures Sanitise(Sanitise(name)) == Sanitise(name)
  {
    var once := Sanitise(name);
    assert ' ' !in once;
    RemoveSpacesKeepsAlnum(once);
    ReplaceRunsFixed(once);
  }

  predicate AllAlnum(s: string)
  {
    forall i :: 0 <= i < |s| ==> IsAsciiAlnum(s[i])
  }

  /** Letters and digits pass through unchanged. */
  lemma {:induction false} ReplaceRunsAlnum(a: string, t: string)
    requires AllAlnum(a)
    ensures ReplaceRuns(a + t) == a + ReplaceRuns(t)
    decreases |a|
  {
    if a != [] {
      assert (a + t)[0] == a[0] && (a + t)[1..] == a[1..] + t;
      ReplaceRunsAlnum(a[1..], t);
      assert a == [a[0]] + a[1..];
    } else {
      assert a + t == t;
    }
  }

  /** A whole run of other characters becomes one '_'. */
  lemma ReplaceRunsRun(run: string, t: string)
    requires run != [] && forall i :: 0 <= i < |run| ==> !IsAsciiAlnum(run[i])
    requires t == [] || IsAsciiAlnum(t[0])
    ensures ReplaceRuns(run + t) == "_" + ReplaceRuns(t)
  {
    RunLengthOfRun(run, t);
    assert (run + t)[|run|..] == t;
  }

  lemma {:induction false} RunLengthOfRun(run: string, t: string)
    requires run != [] && forall i :: 0 <= i < |run| ==> !IsAsciiAlnum(run[i])
    requires t == [] || IsAsciiAlnum(t[0])
    ensures RunLength(run + t) == |run|
    decreases |run|
  {
    var s := run + t;
    if |run| > 1 {
      assert s[1..] == run[1..] + t;
      RunLengthOfRun(run[1..], t);
    } else if t != [] {
      assert s[1] == t[0];
    }
  }

  /** Any separator without spaces between two words becomes one '_'. */
  lemma SanitiseSeparator(a: string, sep: string, b: string)
    requires AllAlnum(a) && AllAlnum(b)
    requires sep != [] && forall i :: 0 <= i < |sep| ==> !IsAsciiAlnum(sep[i]) && sep[i] != ' '
    ensures Sanitise(a + sep + b) == a + "_" + b
  {
    var s := a + sep + b;
    assert ' ' !in s by {
      forall i | 0 <= i < |s| ensures s[i] != ' ' {
        if i < |a| { assert s[i] == a[i]; }
        else if i < |a| + |sep| { assert s[i] == sep[i - |a|]; }
        else { assert s[i] == b[i - |a| - |sep|]; }
      }
    }
    RemoveSpacesKeepsAlnum(s);
    assert s == a + (sep + b);
    ReplaceRunsAlnum(a, sep + b);
    ReplaceRunsRun(sep, b);
    ReplaceRunsFixed(b);
  }

  /** Words separated only by spaces are joined. */
  lemma SanitiseSpaces(a: string, spaces: string, b: string)
    requires AllAlnum(a) && AllAlnum(b)
    requires forall i :: 0 <= i < |spaces| ==> spaces[i] == ' '
    ensures Sanitise(a + spaces + b) == a + b
  {
    var s := a + spaces + b;
    assert s == a + (spaces + b);
    RemoveSpacesConcat(a, spaces + b);
    RemoveSpacesConcat(spaces, b);
    AllSpaces(spaces);
    assert ' ' !in a && ' ' !in b;
    RemoveSpacesKeepsAlnum(a);
    RemoveSpacesKeepsAlnum(b);
    assert RemoveSpaces(s) == a + b;
    assert AllAlnum(a + b);
    ReplaceRunsFixed(a + b);
  }

  lemma {:induction false} RemoveSpacesConcat(a: string, b: string)
    ensures RemoveSpaces(a + b) == RemoveSpaces(a) + RemoveSpaces(b)
    decreases |a|
  {
    if a != [] {
      assert (a + b)[0] == a[0] && (a + b)[1..] == a[1..] + b;
      RemoveSpacesConcat(a[1..], b);
    } else {
      assert a + b == b;
    }
  }

  lemma {:induction false} AllSpaces(s: string)
    requires forall i :: 0 <= i < |s| ==> s[i] == ' '
    ensures RemoveSpaces(s) == []
    decreases |s|
  {
    if s != [] {
      AllSpaces(s[1..]);
    }
  }

  // ---------------------------------------------------------------------
  // Variant order

  /** One generated enum variant: its name and its numeric id. */
  datatype Variant = Variant(name: string, id: nat)

  /** A non-empty finite set of numbers has a least element. */
  lemma {:induction false} HasLeast(ks: set<nat>)
    requires ks != {}
    ensures exists k :: k in ks && forall j :: j in ks ==> k <= j
    decreases |ks|
  {
    var x :| x in ks;
    if !forall j :: j in ks ==> x <= j {
      var y :| y in ks && y < x;
      var others := ks - {x};
      assert y in others;
      HasLeast(others);
      var z :| z in others && forall j :: j in others ==> z <= j;
      forall j | j in ks ensures z <= j {
        if j != x { assert j in others; }
      }
      assert z in ks;
    }
  }

  /** The least key of a map, where a `BTreeMap` starts its iteration. */
  function LeastKey(m: map<nat, string>): (k: nat)
    requires m != map[]
    ensures k in m && forall j :: j in m ==> k <= j
  {
    assert m.Keys != {};
    HasLeast(m.Keys);
    var k :| k in m.Keys && forall j :: j in m.Keys ==> k <= j;
    k
  }

  /** `r` lists every entry of `m` once, by ascending id, each variant
      named after its sanitised subject name. */
  ghost predicate EmitsInOrder(m: map<nat, string>, r: seq<Variant>)
  {
    && |r| == |m|
    && (forall i :: 0 <= i < |r| ==> r[i].id in m && r[i].name == Sanitise(m[r[i].id]))
    && (forall i, j :: 0 <= i < j < |r| ==> r[i].id < r[j].id)
    && (forall k :: k in m ==> exists i :: 0 <= i < |r| && r[i].id == k)
  }

  /** Putting the least entry in front of the ordered rest orders the whole. */
  lemma EmitLeastFirst(m: map<nat, string>, k: nat, rest: seq<Variant>)
    requires k in m && forall j :: j in m ==> k <= j
    requires EmitsInOrder(m - {k}, rest)
    ensures EmitsInOrder(m, [Variant(Sanitise(m[k]), k)] + rest)
  {
    assert |m - {k}| == |m| - 1;
    EmitNames(m, k, rest);
    EmitIncreasing(m, k, rest);
    EmitCovers(m, k, rest);
  }

  lemma EmitNames(m: map<nat, string>, k: nat, rest: seq<Variant>)
    requires k in m
    requires forall i :: 0 <= i < |rest| ==> rest[i].id in m - {k} && rest[i].name == Sanitise((m - {k})[rest[i].id])
    ensures forall i :: 0 <= i < |rest| + 1 ==>
      ([Variant(Sanitise(m[k]), k)] + rest)[i].id in m &&
      ([Variant(Sanitise(m[k]), k)] + rest)[i].name == Sanitise(m[([Variant(Sanitise(m[k]), k)] + rest)[i].id])
  {
    var r := [Variant(Sanitise(m[k]), k)] + rest;
    forall i | 0 <= i < |r| ensures r[i].id in m && r[i].name == Sanitise(m[r[i].id]) {
      if i > 0 {
        assert r[i] == rest[i - 1];
        assert (m - {k})[r[i].id] == m[r[i].id];
      }
    }
  }

  lemma EmitIncreasing(m: map<nat, string>, k: nat, rest: seq<Variant>)
    requires k in m && forall j :: j in m ==> k <= j
    requires forall i :: 0 <= i < |rest| ==> rest[i].id in m - {k}
    requires forall i, j :: 0 <= i < j < |rest| ==> rest[i].id < rest[j].id
    ensures forall i, j :: 0 <= i < j < |rest| + 1 ==>
      ([Variant(Sanitise(m[k]), k)] + rest)[i].id < ([Variant(Sanitise(m[k]), k)] + rest)[j].id
  {
    var r := [Variant(Sanitise(m[k]), k)] + rest;
    forall i, j | 0 <= i < j < |r| ensures r[i].id < r[j].id {
      assert r[j] == rest[j - 1];
      if i > 0 {
        assert r[i] == rest[i - 1];
      } else {
        assert rest[j - 1].id in m;
      }
    }
  }

  lemma EmitCovers(m: map<nat, string>, k: nat, rest: seq<Variant>)
    requires k in m
    requires forall k' :: k' in m - {k} ==> exists i :: 0 <= i < |rest| && rest[i].id == k'
    ensures forall k' :: k' in m ==> exists i :: 0 <= i < |rest| + 1 && ([Variant(Sanitise(m[k]), k)] + rest)[i].id == k'
  {
    var r := [Variant(Sanitise(m[k]), k)] + rest;
    forall k' | k' in m ensures exists i :: 0 <= i < |r| && r[i].id == k' {
      if k' == k {
        assert r[0].id == k';
      } else {
        assert k' in m - {k};
        var i :| 0 <= i < |rest| && rest[i].id == k';
        assert r[i + 1].id == k';
      }
    }
  }

  /** The variants generated from an id-to-name map, in `BTreeMap` order. */
  function Variants(m: map<nat, string>): (r: seq<Variant>)
    ensures EmitsInOrder(m, r)
    decreases |m|
  {
    if m == map[] then []
    else
      var k := LeastKey(m);
      var rest := Variants(m - {k});
      EmitLeastFirst(m, k, rest);
      [Variant(Sanitise(m[k]), k)] + rest
  }
}
