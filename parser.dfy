/** The scrapers that turn a stage's HTML response into typed data.

    The HTML document is taken already parsed, reduced to what the scrapers
    look at: the named controls in document order, each with its option
    nodes, and the `materialbody` blocks in document order, each with its
    text and its direct children. */
module Parser {
  import opened Errors
  import opened Text
  import Consts

  // ---------------------------------------------------------------------
  // The document

  /** One `<option>`: its `value` attribute, if present, and its text. */
  datatype OptionNode = OptionNode(value: Option<string>, text: string)

  /** A node carrying a `name` attribute, with its `<option>` descendants. */
  datatype Control = Control(name: string, options: seq<OptionNode>)

  /** A direct child of a material block: its tag name and `href`, if any. */
  datatype Child = Child(tag: string, href: Option<string>)

  /** A `materialbody` block: its text content and direct children. */
  datatype Block = Block(text: string, children: seq<Child>)

  datatype Document = Document(controls: seq<Control>, blocks: seq<Block>)

  const TypeControl: string := "MaterialArchive__noTable__sbv__ViewType"
  const YearControl: string := "MaterialArchive__noTable__sbv__YearSelect"
  const ExamControl: string := "MaterialArchive__noTable__sbv__ExaminationSelect"
  const SubjectControl: string := "MaterialArchive__noTable__sbv__SubjectSelect"

  // ---------------------------------------------------------------------
  // Locating a control

  /** The first control carrying `name`, if any. */
  function FirstControl(controls: seq<Control>, name: string): (r: Option<Control>)
    ensures r.None? <==> forall i :: 0 <= i < |controls| ==> controls[i].name != name
    ensures r.Some? ==> exists i :: 0 <= i < |controls| && controls[i] == r.value &&
                          r.value.name == name &&
                          forall j :: 0 <= j < i ==> controls[j].name != name
  {
    if controls == [] then None
    else if controls[0].name == name then Some(controls[0])
    else
      var r := FirstControl(controls[1..], name);
      assert r.Some? ==> exists i :: 0 <= i < |controls[1..]| && controls[1..][i] == r.value &&
                          forall j :: 0 <= j < i ==> controls[1..][j].name != name;
      assert r.Some? ==> exists i :: 0 <= i < |controls| && controls[i] == r.value &&
                          forall j :: 0 <= j < i ==> controls[j].name != name
      by {
        if r.Some? {
          var i :| 0 <= i < |controls[1..]| && controls[1..][i] == r.value &&
                   forall j :: 0 <= j < i ==> controls[1..][j].name != name;
          assert controls[i + 1] == r.value;
          assert forall j :: 0 <= j < i + 1 ==> controls[j].name != name by {
            forall j | 0 <= j < i + 1 ensures controls[j].name != name {
              if j > 0 { assert controls[j] == controls[1..][j - 1]; }
            }
          }
        }
      }
      r
  }

  /** Controls after the first match are never consulted. */
  lemma FirstControlIgnoresLater(controls: seq<Control>, later: seq<Control>, name: string)
    requires FirstControl(controls, name).Some?
    ensures FirstControl(controls + later, name) == FirstControl(controls, name)
  {
    var i :| 0 <= i < |controls| && controls[i] == FirstControl(controls, name).value &&
             controls[i].name == name && forall j :: 0 <= j < i ==> controls[j].name != name;
    var r := FirstControl(controls + later, name);
    assert (controls + later)[i] == controls[i];
    if r.Some? {
      var i' :| 0 <= i' < |controls + later| && (controls + later)[i'] == r.value &&
                r.value.name == name && forall j :: 0 <= j < i' ==> (controls + later)[j].name != name;
      assert i' == i;
    }
  }

  // ---------------------------------------------------------------------
  // Option lists

  /** An option without a value, or with an empty one, is the "please
      choose" placeholder and is skipped. */
  predicate IsPlaceholder(o: OptionNode)
  {
    o.value.None? || o.value.value == []
  }

  /** The options that are not placeholders, in document order. */
  function Selectable(opts: seq<OptionNode>): (r: seq<OptionNode>)
    ensures |r| <= |opts|
    ensures forall i :: 0 <= i < |r| ==> !IsPlaceholder(r[i])
  {
    if opts == [] then []
    else
      var rest := Selectable(opts[..|opts| - 1]);
      if IsPlaceholder(opts[|opts| - 1]) then rest else rest + [opts[|opts| - 1]]
  }

  /** The value-to-text map built by inserting every non-placeholder
      option in document order; a repeated value keeps the later text. */
  function Labels(opts: seq<OptionNode>): (r: map<string, string>)
    ensures forall v :: v in r ==> v != []
  {
    if opts == [] then map[]
    else
      var last := opts[|opts| - 1];
      var m := Labels(opts[..|opts| - 1]);
      if IsPlaceholder(last) then m else m[last.value.value := last.text]
  }

  /** Every selectable option's value parses as a `u32`. */
  predicate AllNumeric(opts: seq<OptionNode>)
  {
    forall i :: 0 <= i < |opts| && !IsPlaceholder(opts[i]) ==> ParseU32(opts[i].value.value).Some?
  }

  /** The parsed values of the non-placeholder options, in document order;
      any value that is not a `u32` fails the whole list. */
  function Years(opts: seq<OptionNode>): (r: Result<seq<nat>>)
    ensures r.Err? ==> r.error == ParseInt
    ensures r.Ok? ==> |r.value| <= |opts| && forall i :: 0 <= i < |r.value| ==> r.value[i] < U32Limit
  {
    if opts == [] then Ok([])
    else
      var last := opts[|opts| - 1];
      match Years(opts[..|opts| - 1])
      case Err(e) => Err(e)
      case Ok(ys) =>
        if IsPlaceholder(last) then Ok(ys)
        else match ParseU32(last.value.value)
          case None => Err(ParseInt)
          case Some(y) => Ok(ys + [y])
  }

  /** The parsed-value-to-text map of the non-placeholder options; any
      value that is not a `u32` fails the whole map. */
  function Subjects(opts: seq<OptionNode>): (r: Result<map<nat, string>>)
    ensures r.Err? ==> r.error == ParseInt
    ensures r.Ok? ==> forall id :: id in r.value ==> id < U32Limit
  {
    if opts == [] then Ok(map[])
    else
      var last := opts[|opts| - 1];
      match Subjects(opts[..|opts| - 1])
      case Err(e) => Err(e)
      case Ok(m) =>
        if IsPlaceholder(last) then Ok(m)
        else match ParseU32(last.value.value)
          case None => Err(ParseInt)
          case Some(id) => Ok(m[id := last.text])
  }

  /** `j` is the last option whose value is `v`. */
  predicate LastCarrier(opts: seq<OptionNode>, j: int, v: string)
  {
    0 <= j < |opts| && opts[j].value == Some(v) &&
    forall j' :: j < j' < |opts| ==> opts[j'].value != Some(v)
  }

  /** `j` is the last non-placeholder option whose value parses to `id`. */
  predicate LastNumericCarrier(opts: seq<OptionNode>, j: int, id: nat)
  {
    0 <= j < |opts| && !IsPlaceholder(opts[j]) && ParseU32(opts[j].value.value) == Some(id) &&
    forall j' :: j < j' < |opts| && !IsPlaceholder(opts[j']) ==> ParseU32(opts[j'].value.value) != Some(id)
  }

  // ---------------------------------------------------------------------
  // Properties of the option lists

  /** Selecting from a list extended by one option. */
  lemma SelectableSnoc(init: seq<OptionNode>, last: OptionNode)
    ensures Selectable(init + [last]) ==
            if IsPlaceholder(last) then Selectable(init) else Selectable(init) + [last]
  {
    assert (init + [last])[..|init|] == init;
  }

  /** The label map of a list extended by one option. */
  lemma LabelsSnoc(init: seq<OptionNode>, last: OptionNode)
    ensures Labels(init + [last]) ==
            if IsPlaceholder(last) then Labels(init) else Labels(init)[last.value.value := last.text]
  {
    assert (init + [last])[..|init|] == init;
  }

  lemma YearsSnoc(init: seq<OptionNode>, last: OptionNode)
    ensures Years(init + [last]) ==
            match Years(init)
            case Err(e) => Err(e)
            case Ok(ys) =>
              if IsPlaceholder(last) then Ok(ys)
              else match ParseU32(last.value.value)
                case None => Err(ParseInt)
                case Some(y) => Ok(ys + [y])
  {
    assert (init + [last])[..|init|] == init;
  }

  lemma SubjectsSnoc(init: seq<OptionNode>, last: OptionNode)
    ensures Subjects(init + [last]) ==
            match Subjects(init)
            case Err(e) => Err(e)
            case Ok(m) =>
              if IsPlaceholder(last) then Ok(m)
              else match ParseU32(last.value.value)
                case None => Err(ParseInt)
                case Some(id) => Ok(m[id := last.text])
  {
    assert (init + [last])[..|init|] == init;
  }

  /** Placeholders contribute nothing to the label map. */
  lemma {:induction false} LabelsIgnorePlaceholders(opts: seq<OptionNode>)
    ensures Labels(opts) == Labels(Selectable(opts))
    decreases |opts|
  {
    if opts != [] {
      var init, last := opts[..|opts| - 1], opts[|opts| - 1];
      LabelsIgnorePlaceholders(init);
      assert opts == init + [last];
      SelectableSnoc(init, last);
      LabelsSnoc(init, last);
      LabelsSnoc(Selectable(init), last);
    }
  }

  /** Placeholders contribute nothing to the year list. */
  lemma {:induction false} YearsIgnorePlaceholders(opts: seq<OptionNode>)
    ensures Years(opts) == Years(Selectable(opts))
    decreases |opts|
  {
    if opts != [] {
      var init, last := opts[..|opts| - 1], opts[|opts| - 1];
      YearsIgnorePlaceholders(init);
      assert opts == init + [last];
      SelectableSnoc(init, last);
      YearsSnoc(init, last);
      YearsSnoc(Selectable(init), last);
    }
  }

  /** Placeholders contribute nothing to the subject map. */
  lemma {:induction false} SubjectsIgnorePlaceholders(opts: seq<OptionNode>)
    ensures Subjects(opts) == Subjects(Selectable(opts))
    decreases |opts|
  {
    if opts != [] {
      var init, last := opts[..|opts| - 1], opts[|opts| - 1];
      SubjectsIgnorePlaceholders(init);
      assert opts == init + [last];
      SelectableSnoc(init, last);
      SubjectsSnoc(init, last);
      SubjectsSnoc(Selectable(init), last);
    }
  }

  lemma AllNumericSnoc(init: seq<OptionNode>, last: OptionNode)
    ensures AllNumeric(init + [last]) <==>
            AllNumeric(init) && (IsPlaceholder(last) || ParseU32(last.value.value).Some?)
  {
    var opts := init + [last];
    if AllNumeric(opts) {
      forall i | 0 <= i < |init| && !IsPlaceholder(init[i]) ensures ParseU32(init[i].value.value).Some? {
        assert opts[i] == init[i];
      }
      assert opts[|init|] == last;
    }
  }

  /** A list holding only placeholders yields empty results, not errors. */
  lemma {:induction false} OnlyPlaceholders(opts: seq<OptionNode>)
    requires forall i :: 0 <= i < |opts| ==> IsPlaceholder(opts[i])
    ensures Labels(opts) == map[] && Years(opts) == Ok([]) && Subjects(opts) == Ok(map[])
    decreases |opts|
  {
    if opts != [] {
      OnlyPlaceholders(opts[..|opts| - 1]);
    }
  }

  /** The keys of the label map are exactly the values of the selectable
      options. */
  lemma {:induction false} LabelsKeys(opts: seq<OptionNode>)
    ensures forall v :: v in Labels(opts) <==>
              exists i :: 0 <= i < |opts| && !IsPlaceholder(opts[i]) && opts[i].value == Some(v)
    decreases |opts|
  {
    if opts != [] {
      var init := opts[..|opts| - 1];
      LabelsKeys(init);
      forall v ensures v in Labels(opts) <==>
                       exists i :: 0 <= i < |opts| && !IsPlaceholder(opts[i]) && opts[i].value == Some(v) {
        if exists i :: 0 <= i < |opts| && !IsPlaceholder(opts[i]) && opts[i].value == Some(v) {
          var i :| 0 <= i < |opts| && !IsPlaceholder(opts[i]) && opts[i].value == Some(v);
          if i < |init| { assert init[i] == opts[i]; }
        }
        if v in Labels(init) {
          var i :| 0 <= i < |init| && !IsPlaceholder(init[i]) && init[i].value == Some(v);
          assert opts[i] == init[i];
        }
      }
    }
  }

  /** Each key of the label map holds the text of the last option carrying
      that value. */
  lemma {:induction false} LabelsLastWins(opts: seq<OptionNode>, v: string)
    requires v in Labels(opts)
    ensures exists j :: LastCarrier(opts, j, v) && Labels(opts)[v] == opts[j].text
    decreases |opts|
  {
    var init, last := opts[..|opts| - 1], opts[|opts| - 1];
    if !IsPlaceholder(last) && last.value.value == v {
      assert LastCarrier(opts, |opts| - 1, v);
    } else {
      LabelsLastWins(init, v);
      var j :| LastCarrier(init, j, v) && Labels(init)[v] == init[j].text;
      assert opts[j] == init[j];
      assert init[j].value == Some(v);
      assert v != [] by {
        LabelsKeys(init);
      }
      assert last.value != Some(v);
      assert LastCarrier(opts, j, v);
    }
  }

  /** Once a prefix has failed, the whole list fails with the same error. */
  lemma {:induction false} NumericFailurePersists(opts: seq<OptionNode>, k: nat)
    requires k <= |opts|
    ensures Years(opts[..k]).Err? ==> Years(opts) == Years(opts[..k])
    ensures Subjects(opts[..k]).Err? ==> Subjects(opts) == Subjects(opts[..k])
    decreases |opts| - k
  {
    if k < |opts| {
      NumericFailurePersists(opts, k + 1);
      assert opts[..k + 1][..k] == opts[..k];
    } else {
      assert opts[..k] == opts;
    }
  }

  /** The year list succeeds exactly when every selectable value is a
      `u32`, and then lists those values in document order, duplicates
      kept. */
  lemma {:induction false} YearsMeaning(opts: seq<OptionNode>)
    ensures Years(opts).Ok? <==> AllNumeric(opts)
    ensures Years(opts).Err? ==> Years(opts).error == ParseInt
    ensures Years(opts).Ok? ==>
              var ys, sel := Years(opts).value, Selectable(opts);
              |ys| == |sel| &&
              forall i :: 0 <= i < |ys| ==> ParseU32(sel[i].value.value) == Some(ys[i])
    decreases |opts|
  {
    if opts != [] {
      var init, last := opts[..|opts| - 1], opts[|opts| - 1];
      YearsMeaning(init);
      AllNumericSnoc(init, last);
      assert opts == init + [last];
    }
  }

  /** The subject map succeeds exactly when every selectable value is a
      `u32`; its keys are then the parsed values, each holding the text of
      the last option whose value parses to it. */
  lemma SubjectsMeaning(opts: seq<OptionNode>)
    ensures Subjects(opts).Ok? <==> AllNumeric(opts)
    ensures Subjects(opts).Err? ==> Subjects(opts).error == ParseInt
    ensures Subjects(opts).Ok? ==> forall id :: id in Subjects(opts).value ==>
              exists j :: LastNumericCarrier(opts, j, id) && Subjects(opts).value[id] == opts[j].text
    ensures Subjects(opts).Ok? ==> forall j :: 0 <= j < |opts| && !IsPlaceholder(opts[j]) ==>
              ParseU32(opts[j].value.value).value in Subjects(opts).value
  {
    SubjectsSucceed(opts);
    SubjectsLastWins(opts);
    SubjectsCover(opts);
  }

  lemma {:induction false} SubjectsSucceed(opts: seq<OptionNode>)
    ensures Subjects(opts).Ok? <==> AllNumeric(opts)
    ensures Subjects(opts).Err? ==> Subjects(opts).error == ParseInt
    decreases |opts|
  {
    if opts != [] {
      var init, last := opts[..|opts| - 1], opts[|opts| - 1];
      SubjectsSucceed(init);
      AllNumericSnoc(init, last);
      assert opts == init + [last];
      SubjectsSnoc(init, last);
    }
  }

  lemma {:induction false} SubjectsLastWins(opts: seq<OptionNode>)
    ensures Subjects(opts).Ok? ==> forall id :: id in Subjects(opts).value ==>
              exists j :: LastNumericCarrier(opts, j, id) && Subjects(opts).value[id] == opts[j].text
    decreases |opts|
  {
    if opts != [] && Subjects(opts).Ok? {
      var init, last := opts[..|opts| - 1], opts[|opts| - 1];
      SubjectsLastWins(init);
      assert opts == init + [last];
      SubjectsSnoc(init, last);
      var m := Subjects(opts).value;
      var m0 := Subjects(init).value;
      forall id | id in m
        ensures exists j :: LastNumericCarrier(opts, j, id) && m[id] == opts[j].text
      {
        if !IsPlaceholder(last) && ParseU32(last.value.value) == Some(id) {
          assert LastNumericCarrier(opts, |opts| - 1, id);
        } else {
          assert id in m0;
          var j :| LastNumericCarrier(init, j, id) && m0[id] == init[j].text;
          assert opts[j] == init[j];
          assert LastNumericCarrier(opts, j, id);
        }
      }
    }
  }

  lemma {:induction false} SubjectsCover(opts: seq<OptionNode>)
    ensures Subjects(opts).Ok? ==> AllNumeric(opts)
    ensures Subjects(opts).Ok? ==> forall j :: 0 <= j < |opts| && !IsPlaceholder(opts[j]) ==>
              ParseU32(opts[j].value.value).value in Subjects(opts).value
    decreases |opts|
  {
    SubjectsSucceed(opts);
    if opts != [] && Subjects(opts).Ok? {
      var init, last := opts[..|opts| - 1], opts[|opts| - 1];
      SubjectsCover(init);
      assert opts == init + [last];
      SubjectsSnoc(init, last);
      var m := Subjects(opts).value;
      var m0 := Subjects(init).value;
      assert m0.Keys <= m.Keys;
      forall j | 0 <= j < |opts| && !IsPlaceholder(opts[j])
        ensures ParseU32(opts[j].value.value).Some? && ParseU32(opts[j].value.value).value in m
      {
        if j < |init| {
          assert opts[j] == init[j];
          assert ParseU32(init[j].value.value).value in m0;
        } else {
          assert opts[j] == last;
        }
      }
    }
  }

  // ---------------------------------------------------------------------
  // The option scrapers

  /** Scrapes a value-to-text map from the first control named `control`;
      fails with `Value(missing)` when the document has no such control. */
  method ParseLabelled(doc: Document, control: string, missing: string)
    returns (r: Result<map<string, string>>)
    ensures r.Err? <==> forall i :: 0 <= i < |doc.controls| ==> doc.controls[i].name != control
    ensures r.Err? ==> r.error == Value(missing)
    ensures r.Ok? ==> r.value == Labels(FirstControl(doc.controls, control).value.options)
  {
    var items := FirstControl(doc.controls, control);
    match items {
      case None =>
        r := Err(Value(missing));
      case Some(c) =>
        var m := map[];
        for i := 0 to |c.options|
          invariant m == Labels(c.options[..i])
        {
          var item := c.options[i];
          assert c.options[..i + 1][..i] == c.options[..i];
          if item.value.None? || item.value.value == [] {
            continue;
          }
          m := m[item.value.value := item.text];
        }
        assert c.options[..|c.options|] == c.options;
        r := Ok(m);
    }
  }

  /** The document types offered by the stage-two page. */
  method ParseTypes(doc: Document) returns (r: Result<map<string, string>>)
    ensures r.Err? <==> forall i :: 0 <= i < |doc.controls| ==> doc.controls[i].name != TypeControl
    ensures r.Err? ==> r.error == Value("could not get paper type field")
    ensures r.Ok? ==> r.value == Labels(FirstControl(doc.controls, TypeControl).value.options)
  {
    r := ParseLabelled(doc, TypeControl, "could not get paper type field");
  }

  /** The examinations offered by the stage-four page. */
  method ParseExams(doc: Document) returns (r: Result<map<string, string>>)
    ensures r.Err? <==> forall i :: 0 <= i < |doc.controls| ==> doc.controls[i].name != ExamControl
    ensures r.Err? ==> r.error == Value("could not get exam field")
    ensures r.Ok? ==> r.value == Labels(FirstControl(doc.controls, ExamControl).value.options)
  {
    r := ParseLabelled(doc, ExamControl, "could not get exam field");
  }

  /** The years offered by the stage-three page. */
  method ParseYears(doc: Document) returns (r: Result<seq<nat>>)
    ensures FirstControl(doc.controls, YearControl).None? ==> r == Err(Value("could not get paper year field"))
    ensures FirstControl(doc.controls, YearControl).Some? ==>
              r == Years(FirstControl(doc.controls, YearControl).value.options)
  {
    var items := FirstControl(doc.controls, YearControl);
    match items {
      case None =>
        r := Err(Value("could not get paper year field"));
      case Some(c) =>
        var ys := [];
        for i := 0 to |c.options|
          invariant Years(c.options[..i]) == Ok(ys)
        {
          var item := c.options[i];
          assert c.options[..i + 1][..i] == c.options[..i];
          if item.value.None? || item.value.value == [] {
            continue;
          }
          var value := ParseU32(item.value.value);
          if value.None? {
            NumericFailurePersists(c.options, i + 1);
            return Err(ParseInt);
          }
          ys := ys + [value.value];
        }
        assert c.options[..|c.options|] == c.options;
        r := Ok(ys);
    }
  }

  /** The subjects offered by the stage-five page. */
  method ParseSubjects(doc: Document) returns (r: Result<map<nat, string>>)
    ensures FirstControl(doc.controls, SubjectControl).None? ==> r == Err(Value("could not get subject field"))
    ensures FirstControl(doc.controls, SubjectControl).Some? ==>
              r == Subjects(FirstControl(doc.controls, SubjectControl).value.options)
  {
    var items := FirstControl(doc.controls, SubjectControl);
    match items {
      case None =>
        r := Err(Value("could not get subject field"));
      case Some(c) =>
        var m := map[];
        for i := 0 to |c.options|
          invariant Subjects(c.options[..i]) == Ok(m)
        {
          var item := c.options[i];
          assert c.options[..i + 1][..i] == c.options[..i];
          if item.value.None? || item.value.value == [] {
            continue;
          }
          var value := ParseU32(item.value.value);
          if value.None? {
            NumericFailurePersists(c.options, i + 1);
            return Err(ParseInt);
          }
          m := m[value.value := item.text];
        }
        assert c.options[..|c.options|] == c.options;
        r := Ok(m);
    }
  }

  // ---------------------------------------------------------------------
  // Material blocks

  /** The phrase a block shows in place of an embedded link. */
  const ClickHere: string := "Click Here"

  /** The host of links that need no rewriting. */
  const Host: string := "https://www.examinations.ie"

  /** A direct `a` child with an `href` attribute, even an empty one. */
  predicate IsLinkAnchor(c: Child)
  {
    c.tag == "a" && c.href.Some?
  }

  /** The `href` of the first linking anchor among `children`. */
  function FirstHref(children: seq<Child>): (r: Option<string>)
    ensures r.None? <==> forall i :: 0 <= i < |children| ==> !IsLinkAnchor(children[i])
    ensures r.Some? ==> exists i :: 0 <= i < |children| && IsLinkAnchor(children[i]) &&
                          r == children[i].href && forall j :: 0 <= j < i ==> !IsLinkAnchor(children[j])
  {
    if children == [] then None
    else if IsLinkAnchor(children[0]) then children[0].href
    else
      var r := FirstHref(children[1..]);
      assert r.Some? ==> exists i :: 0 <= i < |children| && IsLinkAnchor(children[i]) &&
                          r == children[i].href && forall j :: 0 <= j < i ==> !IsLinkAnchor(children[j])
      by {
        if r.Some? {
          var i :| 0 <= i < |children[1..]| && IsLinkAnchor(children[1..][i]) &&
                   r == children[1..][i].href && forall j :: 0 <= j < i ==> !IsLinkAnchor(children[1..][j]);
          assert children[i + 1] == children[1..][i];
          forall j | 0 <= j < i + 1 ensures !IsLinkAnchor(children[j]) {
            if j > 0 { assert children[j] == children[1..][j - 1]; }
          }
        }
      }
      r
  }

  /** The archive URL, and so anything that extends it, contains the host. */
  lemma HostInArchive(t: string)
    ensures Contains(Consts.ExamUrl + t, Host)
  {
    assert Host <= Consts.ExamUrl;
    ContainsPrefix(Consts.ExamUrl, Host);
    ContainsInPrefix(Consts.ExamUrl, t, Host);
  }

  /** Links on the site's host are kept; anything else is appended to the
      archive URL after a '/'. Either way the result is on the host and
      ends with the original link. */
  function Absolute(href: string): (r: string)
    ensures Contains(r, Host)
    ensures Contains(href, Host) ==> r == href
    ensures |href| <= |r| && r[|r| - |href|..] == href
  {
    if Contains(href, Host) then href
    else
      HostInArchive("/" + href);
      assert Consts.ExamUrl + "/" + href == Consts.ExamUrl + ("/" + href);
      Consts.ExamUrl + "/" + href
  }

  /** What a material block contributes: its trimmed text, or, when that
      text shows the "Click Here" phrase, the link of its first linking
      anchor (the empty string if it has none). The result is the trimmed
      text, a link on the site's host, or empty. */
  function BlockValue(b: Block): (r: string)
    ensures r == Trim(b.text, Whitespace) || Contains(r, Host) || r == ""
  {
    var text := Trim(b.text, Whitespace);
    if !Contains(text, ClickHere) then text
    else match FirstHref(b.children)
      case None => ""
      case Some(href) => Absolute(href)
  }

  /** Rewrites one material block into a name or a download link. */
  method FilterNode(b: Block) returns (s: string)
    ensures s == BlockValue(b)
  {
    var text := Trim(b.text, Whitespace);
    if !Contains(text, ClickHere) {
      return text;
    }
    for i := 0 to |b.children|
      invariant FirstHref(b.children) == FirstHref(b.children[i..])
    {
      var x := b.children[i];
      if x.tag == "a" && x.href.Some? {
        var href := x.href.value;
        if Contains(href, Host) {
          return href;
        } else {
          return Consts.ExamUrl + "/" + href;
        }
      }
      assert b.children[i..][1..] == b.children[i + 1..];
    }
    return "";
  }

  /** Rewriting a link twice changes nothing. */
  lemma AbsoluteIdempotent(href: string)
    ensures Absolute(Absolute(href)) == Absolute(href)
  {
  }

  /** A relative link comes out with a doubled '/' after the archive path,
      because the archive URL already ends in '/'. */
  lemma RelativeLinkDoubleSlash(href: string)
    requires !Contains(href, Host)
    ensures Absolute(href) == "https://www.examinations.ie/exammaterialarchive//" + href
  {
  }

  /** A material block yields its trimmed text when that text lacks the
      phrase. Otherwise the first linking anchor decides, even when its
      `href` is empty: a link on the site's host is kept, any other is
      appended to the archive URL after a '/'; without a linking anchor the
      value is the empty string. */
  lemma BlockValueCases(b: Block)
    ensures !Contains(Trim(b.text, Whitespace), ClickHere) ==> BlockValue(b) == Trim(b.text, Whitespace)
    ensures Contains(Trim(b.text, Whitespace), ClickHere) && FirstHref(b.children).None? ==>
              BlockValue(b) == ""
    ensures forall h :: Contains(Trim(b.text, Whitespace), ClickHere) && FirstHref(b.children) == Some(h) ==>
              BlockValue(b) == (if Contains(h, Host) then h else Consts.ExamUrl + "/" + h)
    ensures Contains(Trim(b.text, Whitespace), ClickHere) ==>
              (BlockValue(b) == "" <==> FirstHref(b.children).None?)
  {
    if FirstHref(b.children).Some? {
      ContainsTooShort("", Host);
    }
  }

  /** The phrase itself, untrimmed and containing itself. */
  lemma ClickHereShown()
    ensures Trim(ClickHere, Whitespace) == ClickHere
    ensures Contains(ClickHere, ClickHere)
  {
    assert ClickHere[0] == 'C' && ClickHere[|ClickHere| - 1] == 'e';
    TrimUntouched(ClickHere, Whitespace);
    ContainsPrefix(ClickHere, ClickHere);
  }

  /** A "Click Here" block whose anchor points to "local/file.pdf" yields
      that file under the archive URL. */
  lemma RelativeLinkExample()
    ensures BlockValue(Block(ClickHere, [Child("a", Some("local/file.pdf"))]))
            == Consts.ExamUrl + "/" + "local/file.pdf"
  {
    ClickHereShown();
    var href := "local/file.pdf";
    var b := Block(ClickHere, [Child("a", Some(href))]);
    assert IsLinkAnchor(b.children[0]);
    assert FirstHref(b.children) == Some(href);
    ContainsTooShort(href, Host);
  }

  /** A "Click Here" block whose anchor points into the site's host yields
      its link unchanged. */
  lemma HostLinkExample()
    ensures BlockValue(Block(ClickHere, [Child("a", Some("https://www.examinations.ie/x"))]))
            == "https://www.examinations.ie/x"
  {
    ClickHereShown();
    var href := "https://www.examinations.ie/x";
    var b := Block(ClickHere, [Child("a", Some(href))]);
    assert IsLinkAnchor(b.children[0]);
    assert FirstHref(b.children) == Some(href);
    assert Host <= href;
    ContainsPrefix(href, Host);
  }

  /** The first linking anchor decides even when its `href` is empty: the
      later, non-empty link is never looked at. */
  lemma EmptyHrefExample()
    ensures BlockValue(Block(ClickHere, [Child("a", Some("")), Child("a", Some("x.pdf"))]))
            == Consts.ExamUrl + "/"
  {
    ClickHereShown();
    var b := Block(ClickHere, [Child("a", Some("")), Child("a", Some("x.pdf"))]);
    assert IsLinkAnchor(b.children[0]);
    assert FirstHref(b.children) == Some("");
    ContainsTooShort("", Host);
    assert Consts.ExamUrl + "/" + "" == Consts.ExamUrl + "/";
  }

  // ---------------------------------------------------------------------
  // Pairing the blocks

  /** Groups a list two by two into (name, link) pairs, as `chunks(2)`
      does; a trailing single element makes the second `expect` abort,
      modelled as `None`. */
  function Pairs(c: seq<string>): (r: Option<seq<(string, string)>>)
    ensures r.Some? <==> |c| % 2 == 0
    ensures r.Some? ==> |r.value| == |c| / 2
    ensures r.Some? ==> forall i :: 0 <= i < |r.value| ==> r.value[i] == (c[2 * i], c[2 * i + 1])
  {
    if c == [] then Some([])
    else if |c| == 1 then None
    else match Pairs(c[2..])
      case None => None
      case Some(rest) => Some([(c[0], c[1])] + rest)
  }

  /** The list of names and links the pairs were made from. */
  function Flatten(ps: seq<(string, string)>): (c: seq<string>)
  {
    if ps == [] then [] else [ps[0].0, ps[0].1] + Flatten(ps[1..])
  }

  /** Flattening the pairs gives back the block values, and pairing a
      flattened list gives back the pairs. */
  lemma {:induction false} PairsRoundTrip(c: seq<string>, ps: seq<(string, string)>)
    ensures Pairs(c).Some? ==> Flatten(Pairs(c).value) == c
    ensures Pairs(Flatten(ps)) == Some(ps)
    decreases |c| + |ps|
  {
    if |c| >= 2 {
      PairsRoundTrip(c[2..], []);
      if Pairs(c).Some? {
        var rest := Pairs(c[2..]).value;
        var r := [(c[0], c[1])] + rest;
        assert r[1..] == rest;
        assert c == [c[0], c[1]] + c[2..];
      }
    }
    if ps != [] {
      PairsRoundTrip([], ps[1..]);
      var f := Flatten(ps);
      assert f[2..] == Flatten(ps[1..]);
      assert ps == [ps[0]] + ps[1..];
    }
  }

  /** The value of every block, in document order. */
  function BlockValues(blocks: seq<Block>): (c: seq<string>)
    ensures |c| == |blocks|
    ensures forall i :: 0 <= i < |blocks| ==> c[i] == BlockValue(blocks[i])
  {
    if blocks == [] then [] else BlockValues(blocks[..|blocks| - 1]) + [BlockValue(blocks[|blocks| - 1])]
  }

  /** The material of the final page from its block values: none at all
      fails with `NoMaterial`, an odd count aborts, and otherwise the
      values are read as consecutive (name, link) pairs. */
  function Material(contents: seq<string>): (r: Result<seq<(string, string)>>)
    ensures r == Err(NoMaterial) <==> |contents| == 0
    ensures r == Err(Panic("could not get material value 1")) <==> |contents| % 2 == 1
    ensures r.Ok? <==> |contents| > 0 && |contents| % 2 == 0
    ensures r.Ok? ==> |r.value| == |contents| / 2
    ensures r.Ok? ==> forall i :: 0 <= i < |r.value| ==> r.value[i] == (contents[2 * i], contents[2 * i + 1])
  {
    if contents == [] then Err(NoMaterial)
    else match Pairs(contents)
      case None => Err(Panic("could not get material value 1"))
      case Some(ps) => Ok(ps)
  }

  /** Scrapes the material of the final page. */
  method ParsePapers(doc: Document) returns (r: Result<seq<(string, string)>>)
    ensures r == Material(BlockValues(doc.blocks))
  {
    var contents := [];
    for i := 0 to |doc.blocks|
      invariant contents == BlockValues(doc.blocks[..i])
    {
      var value := FilterNode(doc.blocks[i]);
      assert doc.blocks[..i + 1][..i] == doc.blocks[..i];
      contents := contents + [value];
    }
    assert doc.blocks[..|doc.blocks|] == doc.blocks;
    if contents == [] {
      r := Err(NoMaterial);
    } else {
      match Pairs(contents) {
        case None =>
          r := Err(Panic("could not get material value 1"));
        case Some(ps) =>
          r := Ok(ps);
      }
    }
  }

  // ---------------------------------------------------------------------
  // The pages the site serves

  /** The "please choose" entry the site puts first in every list. */
  const Prompt: OptionNode := OptionNode(Some(""), "Please select")

  /** The type list: a prompt and the two document types. */
  lemma TypesExample()
    ensures Labels([Prompt, OptionNode(Some("exampapers"), "Exam Papers"),
                    OptionNode(Some("markingschemes"), "Marking Schemes")])
            == map["exampapers" := "Exam Papers", "markingschemes" := "Marking Schemes"]
  {
    var o1 := OptionNode(Some("exampapers"), "Exam Papers");
    var o2 := OptionNode(Some("markingschemes"), "Marking Schemes");
    LabelsSnoc([Prompt], o1);
    LabelsSnoc([Prompt, o1], o2);
    assert [Prompt] + [o1] == [Prompt, o1];
    assert [Prompt, o1] + [o2] == [Prompt, o1, o2];
  }

  /** The examination list: a prompt and the three examinations. */
  lemma ExamsExample()
    ensures Labels([Prompt, OptionNode(Some("lb"), "Leaving Certificate Applied"),
                    OptionNode(Some("lc"), "Leaving Certificate"),
                    OptionNode(Some("jc"), "Junior Certificate / Cycle")])
            == map["lb" := "Leaving Certificate Applied", "lc" := "Leaving Certificate",
                   "jc" := "Junior Certificate / Cycle"]
  {
    var o1 := OptionNode(Some("lb"), "Leaving Certificate Applied");
    var o2 := OptionNode(Some("lc"), "Leaving Certificate");
    var o3 := OptionNode(Some("jc"), "Junior Certificate / Cycle");
    LabelsSnoc([Prompt], o1);
    LabelsSnoc([Prompt, o1], o2);
    LabelsSnoc([Prompt, o1, o2], o3);
    assert [Prompt] + [o1] == [Prompt, o1];
    assert [Prompt, o1] + [o2] == [Prompt, o1, o2];
    assert [Prompt, o1, o2] + [o3] == [Prompt, o1, o2, o3];
  }

  /** The subject ids the subject example reads. */
  lemma SubjectIdsParse()
    ensures ParseU32("1") == Some(1) && ParseU32("2") == Some(2)
    ensures ParseU32("10") == Some(10) && ParseU32("11") == Some(11) && ParseU32("14") == Some(14)
  {
    assert AllDigits("1") && DigitsValue("1") == 1;
    assert AllDigits("2") && DigitsValue("2") == 2;
    assert "10"[..1] == "1" && "11"[..1] == "1" && "14"[..1] == "1";
    assert AllDigits("10") && DigitsValue("10") == 10;
    assert AllDigits("11") && DigitsValue("11") == 11;
    assert AllDigits("14") && DigitsValue("14") == 14;
  }

  /** The years the year example reads. */
  lemma ExampleYearsParse()
    ensures ParseU32("1995") == Some(1995) && ParseU32("1996") == Some(1996)
    ensures ParseU32("1997") == Some(1997)
  {
    assert "19"[..1] == "1" && DigitsValue("1") == 1 && DigitsValue("19") == 19;
    assert "199"[..2] == "19" && DigitsValue("199") == 199;
    assert "1995"[..3] == "199" && "1996"[..3] == "199" && "1997"[..3] == "199";
    assert AllDigits("1995") && DigitsValue("1995") == 1995;
    assert AllDigits("1996") && DigitsValue("1996") == 1996;
    assert AllDigits("1997") && DigitsValue("1997") == 1997;
  }

  /** The subjects the live test expects yield their ids keyed to their
      names. */
  lemma SubjectsExample()
    ensures Subjects([Prompt, OptionNode(Some("14"), "Art"), OptionNode(Some("2"), "English"),
                      OptionNode(Some("10"), "French"), OptionNode(Some("11"), "German"),
                      OptionNode(Some("1"), "Irish")])
            == Ok(map[14 := "Art", 2 := "English", 10 := "French", 11 := "German", 1 := "Irish"])
  {
    SubjectIdsParse();
    var o1 := OptionNode(Some("14"), "Art");
    var o2 := OptionNode(Some("2"), "English");
    var o3 := OptionNode(Some("10"), "French");
    var o4 := OptionNode(Some("11"), "German");
    var o5 := OptionNode(Some("1"), "Irish");
    var l0 := [Prompt];
    var l1 := l0 + [o1];
    var l2 := l1 + [o2];
    var l3 := l2 + [o3];
    var l4 := l3 + [o4];
    var l5 := l4 + [o5];
    SubjectsSnoc([], Prompt);
    assert [] + [Prompt] == l0;
    assert Subjects(l0) == Ok(map[]);
    SubjectsSnoc(l0, o1);
    assert Subjects(l1) == Ok(map[14 := "Art"]);
    SubjectsSnoc(l1, o2);
    assert Subjects(l2) == Ok(map[14 := "Art", 2 := "English"]);
    SubjectsSnoc(l2, o3);
    assert Subjects(l3) == Ok(map[14 := "Art", 2 := "English", 10 := "French"]);
    SubjectsSnoc(l3, o4);
    assert Subjects(l4) == Ok(map[14 := "Art", 2 := "English", 10 := "French", 11 := "German"]);
    SubjectsSnoc(l4, o5);
    assert l5 == [Prompt, o1, o2, o3, o4, o5];
  }

  /** The site lists years newest first: for the current year 1998 the list
      is 1997, 1996, 1995, whose reverse is the list of paper years. */
  lemma YearsExample()
    ensures Years([Prompt, OptionNode(Some("1997"), "1997"), OptionNode(Some("1996"), "1996"),
                   OptionNode(Some("1995"), "1995")])
            == Ok([1997, 1996, 1995])
  {
    ExampleYearsParse();
    var o1 := OptionNode(Some("1997"), "1997");
    var o2 := OptionNode(Some("1996"), "1996");
    var o3 := OptionNode(Some("1995"), "1995");
    var l0 := [Prompt];
    var l1 := l0 + [o1];
    var l2 := l1 + [o2];
    var l3 := l2 + [o3];
    YearsSnoc([], Prompt);
    assert [] + [Prompt] == l0;
    assert Years(l0) == Ok([]);
    YearsSnoc(l0, o1);
    assert [] + [1997] == [1997];
    assert Years(l1) == Ok([1997]);
    YearsSnoc(l1, o2);
    assert [1997] + [1996] == [1997, 1996];
    assert Years(l2) == Ok([1997, 1996]);
    assert [1997, 1996] + [1995] == [1997, 1996, 1995];
    YearsSnoc(l2, o3);
    assert l3 == [Prompt, o1, o2, o3];
  }

  /** The paper years for the current year 1998 are 1995, 1996, 1997: the
      scraped list of `YearsExample` reversed. */
  lemma PaperYearsExample()
    ensures Consts.ExamPaperYears(1998) == [1995, 1996, 1997]
  {
    var ys := Consts.ExamPaperYears(1998);
    assert |ys| == 3 && ys[0] == 1995 && ys[1] == 1996 && ys[2] == 1997;
  }
}
