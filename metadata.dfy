/** The query metadata of the archive: document types and examinations
    with their fixed name/id tables, and the language and level labels
    decoded from a paper's display name. */
module Metadata {
  import opened Errors
  import opened Text

  // ---------------------------------------------------------------------
  // Document types and examinations

  datatype DocType = ExamPaper | MarkingScheme

  const AllDocTypes: seq<DocType> := [ExamPaper, MarkingScheme]

  /** The `name` property of a document type: one word, '_' in place of
      spaces. */
  function DocTypeName(t: DocType): (r: string)
    ensures r != [] && ' ' !in r
  {
    match t
    case ExamPaper => "Exam_Papers"
    case MarkingScheme => "Marking_Schemes"
  }

  function DocTypeId(t: DocType): (r: string)
    ensures r != [] && forall i :: 0 <= i < |r| ==> 'a' <= r[i] <= 'z'
  {
    match t
    case ExamPaper => "exampapers"
    case MarkingScheme => "markingschemes"
  }

  datatype Examination = LeavingCertificateApplied | LeavingCertificate | JuniorCertificate

  const AllExaminations: seq<Examination> :=
    [LeavingCertificateApplied, LeavingCertificate, JuniorCertificate]

  /** The `name` property of an examination: '_' in place of spaces. */
  function ExaminationName(e: Examination): (r: string)
    ensures r != [] && ' ' !in r
  {
    match e
    case LeavingCertificateApplied => "Leaving_Certificate_Applied"
    case LeavingCertificate => "Leaving_Certificate"
    case JuniorCertificate => "Junior_Certificate/Cycle"
  }

  function ExaminationId(e: Examination): (r: string)
    ensures r != [] && forall i :: 0 <= i < |r| ==> 'a' <= r[i] <= 'z'
  {
    match e
    case LeavingCertificateApplied => "lb"
    case LeavingCertificate => "lc"
    case JuniorCertificate => "jc"
  }

  /** Every variant is listed once, and no two variants share an id or a
      name, so either names its variant. */
  lemma IdsIdentifyVariants()
    ensures forall t :: t in AllDocTypes
    ensures forall e :: e in AllExaminations
    ensures forall t, u :: DocTypeId(t) == DocTypeId(u) ==> t == u
    ensures forall e, f :: ExaminationId(e) == ExaminationId(f) ==> e == f
    ensures forall t, u :: DocTypeName(t) == DocTypeName(u) ==> t == u
    ensures forall e, f :: ExaminationName(e) == ExaminationName(f) ==> e == f
  {
    forall t: DocType ensures t in AllDocTypes {
      match t
      case ExamPaper => assert AllDocTypes[0] == t;
      case MarkingScheme => assert AllDocTypes[1] == t;
    }
    forall e: Examination ensures e in AllExaminations {
      match e
      case LeavingCertificateApplied => assert AllExaminations[0] == e;
      case LeavingCertificate => assert AllExaminations[1] == e;
      case JuniorCertificate => assert AllExaminations[2] == e;
    }
    forall e, f | ExaminationId(e) == ExaminationId(f) ensures e == f {
      assert ExaminationId(e)[0] == ExaminationId(f)[0];
      assert ExaminationId(e)[1] == ExaminationId(f)[1];
    }
    forall t, u | DocTypeId(t) == DocTypeId(u) ensures t == u {
      assert DocTypeId(t)[0] == DocTypeId(u)[0];
    }
    forall t, u | DocTypeName(t) == DocTypeName(u) ensures t == u {
      assert DocTypeName(t)[0] == DocTypeName(u)[0];
    }
    forall e, f | ExaminationName(e) == ExaminationName(f) ensures e == f {
      assert |ExaminationName(e)| == |ExaminationName(f)|;
      assert ExaminationName(e)[0] == ExaminationName(f)[0];
    }
  }

  // ---------------------------------------------------------------------
  // Languages

  datatype Language = Irish | English | NoLanguage

  /** The display form of a language. Variants without a label display as
      their own name. No form is empty or holds a parenthesis. */
  function LanguageName(l: Language): (r: string)
    ensures r != [] && '(' !in r && ')' !in r
  {
    match l
    case Irish => "IV"
    case English => "EV"
    case NoLanguage => "NoLanguage"
  }

  /** The exact-match parse of a language, the inverse of `LanguageName`. */
  function ParseLanguage(s: string): (r: Option<Language>)
    ensures r.Some? ==> LanguageName(r.value) == s
  {
    if s == "IV" then Some(Irish)
    else if s == "EV" then Some(English)
    else if s == "NoLanguage" then Some(NoLanguage)
    else None
  }

  lemma LanguageRoundTrip(l: Language)
    ensures ParseLanguage(LanguageName(l)) == Some(l)
  {
  }

  /** The language of a paper's display name: the piece after the first
      '(' (up to any second '('), with every trailing ')' removed, parsed
      as a language; anything unparsable is `NoLanguage`. A name without
      any '(' makes the source index out of bounds and abort. */
  function LanguageFromLabel(raw: string): (r: Language)
    requires '(' in raw
    ensures r != NoLanguage ==> LanguageName(r) == TrimEnd(Split(raw, '(')[1], {')'})
  {
    var pieces := Split(raw, '(');
    match ParseLanguage(TrimEnd(pieces[1], {')'}))
    case Some(l) => l
    case None => NoLanguage
  }

  /** The piece after the first '(' of "<text>(<code><closes><tail>", where
      the text holds no '(', `closes` is one or more ')' and the tail is
      empty or starts a further '(' piece, is the code once its ')'s are
      stripped. */
  lemma CodePiece(text: string, code: string, closes: string, tail: string)
    requires '(' !in text && '(' !in code && (code == [] || code[|code| - 1] != ')')
    requires forall i :: 0 <= i < |closes| ==> closes[i] == ')'
    requires tail == [] || tail[0] == '('
    ensures '(' in text + "(" + code + closes + tail
    ensures TrimEnd(Split(text + "(" + code + closes + tail, '(')[1], {')'}) == code
  {
    var piece := code + closes;
    assert '(' !in closes;
    assert '(' !in piece;
    var open := text + "(";
    assert open == text + ['('];
    assert open + code + closes == open + piece;
    SecondPiece(text, piece, tail, '(');
    TrimEndRun(code, closes, {')'});
  }

  /** A display name "<text>(<code>...", where the text holds no '(', decodes
      to the language whose label is the code: every trailing ')', if any,
      is stripped and anything from a second '(' on is ignored. */
  lemma LanguageOfLabelledName(text: string, l: Language, closes: string, tail: string)
    requires '(' !in text
    requires forall i :: 0 <= i < |closes| ==> closes[i] == ')'
    requires tail == [] || tail[0] == '('
    ensures '(' in text + "(" + LanguageName(l) + closes + tail
    ensures LanguageFromLabel(text + "(" + LanguageName(l) + closes + tail) == l
  {
    CodePiece(text, LanguageName(l), closes, tail);
    LanguageRoundTrip(l);
  }

  /** An unknown code decodes to `NoLanguage` rather than failing. */
  lemma UnknownLanguage(text: string, code: string, closes: string, tail: string)
    requires '(' !in text && '(' !in code && ')' !in code
    requires forall i :: 0 <= i < |closes| ==> closes[i] == ')'
    requires tail == [] || tail[0] == '('
    requires ParseLanguage(code) == None
    ensures '(' in text + "(" + code + closes + tail
    ensures LanguageFromLabel(text + "(" + code + closes + tail) == NoLanguage
  {
    CodePiece(text, code, closes, tail);
  }

  // ---------------------------------------------------------------------
  // Levels

  datatype Level = HigherLevel | OrdinaryLevel | FoundationLevel | CommonLevel | NoLevel

  /** The display form of a level: never empty, without surrounding spaces,
      and without '(' or '/'. */
  function LevelName(l: Level): (r: string)
    ensures r != [] && r[0] != ' ' && r[|r| - 1] != ' '
    ensures '(' !in r && '/' !in r
  {
    match l
    case HigherLevel => "Higher Level"
    case OrdinaryLevel => "Ordinary Level"
    case FoundationLevel => "Foundation Level"
    case CommonLevel => "Common Level"
    case NoLevel => "NoLevel"
  }

  /** The exact-match parse of a level, the inverse of `LevelName`. */
  function ParseLevel(s: string): (r: Option<Level>)
    ensures r.Some? ==> LevelName(r.value) == s
  {
    if s == "Higher Level" then Some(HigherLevel)
    else if s == "Ordinary Level" then Some(OrdinaryLevel)
    else if s == "Foundation Level" then Some(FoundationLevel)
    else if s == "Common Level" then Some(CommonLevel)
    else if s == "NoLevel" then Some(NoLevel)
    else None
  }

  lemma LevelRoundTrip(l: Level)
    ensures ParseLevel(LevelName(l)) == Some(l)
  {
  }

  /** The '/'-pieces of the text before the first '(' of a display name. */
  function LevelPieces(raw: string): seq<string>
  {
    Split(Split(raw, '(')[0], '/')
  }

  /** The level of a paper's display name: the text before the first '('
      is split on '/', each piece loses its surrounding spaces, and the
      second piece is parsed as a level; a missing second piece or an
      unknown name is `NoLevel`. */
  function LevelFromLabel(raw: string): (r: Level)
    ensures r != NoLevel ==>
              |LevelPieces(raw)| >= 2 && LevelName(r) == Trim(LevelPieces(raw)[1], {' '})
  {
    var parts := LevelPieces(raw);
    if |parts| < 2 then NoLevel
    else match ParseLevel(Trim(parts[1], {' '}))
      case Some(l) => l
      case None => NoLevel
  }

  /** A display name "<first>/<level><tail>(<rest>" whose first part holds
      neither '/' nor '(' and whose level may be padded with spaces decodes
      to that level; a tail starting with '/' (a third piece) is ignored. */
  lemma LevelOfLabelledName(first: string, lpad: string, l: Level, rpad: string, tail: string, rest: string)
    requires '/' !in first && '(' !in first
    requires forall i :: 0 <= i < |lpad| ==> lpad[i] == ' '
    requires forall i :: 0 <= i < |rpad| ==> rpad[i] == ' '
    requires '(' !in tail && (tail == [] || tail[0] == '/')
    ensures LevelFromLabel(first + "/" + lpad + LevelName(l) + rpad + tail + "(" + rest) == l
  {
    var lname := LevelName(l);
    var inner := lname + rpad;
    var piece := lpad + inner;
    assert '(' !in lpad && '/' !in lpad && '(' !in rpad && '/' !in rpad;
    assert '(' !in piece && '/' !in piece;
    var slash := first + "/";
    assert slash == first + ['/'];
    var head := slash + piece + tail;
    assert '(' !in head;
    var raw := first + "/" + lpad + lname + rpad + tail + "(" + rest;
    assert slash + lpad + lname + rpad == slash + piece;
    assert raw == head + ['('] + rest;
    SplitAtFirst(head, rest, '(');
    assert Split(raw, '(')[0] == head;
    SecondPiece(first, piece, tail, '/');
    assert LevelPieces(raw)[1] == piece;
    TrimStartRun(lpad, inner, {' '});
    TrimEndRun(lname, rpad, {' '});
    assert Trim(piece, {' '}) == lname;
    LevelRoundTrip(l);
  }

  /** A display name without any '(', "<first>/<level><tail>", decodes to
      its level just the same: the whole name is the text before '('. */
  lemma LevelOfUnlabelledName(first: string, lpad: string, l: Level, rpad: string, tail: string)
    requires '/' !in first && '(' !in first
    requires forall i :: 0 <= i < |lpad| ==> lpad[i] == ' '
    requires forall i :: 0 <= i < |rpad| ==> rpad[i] == ' '
    requires '(' !in tail && (tail == [] || tail[0] == '/')
    ensures LevelFromLabel(first + "/" + lpad + LevelName(l) + rpad + tail) == l
  {
    var lname := LevelName(l);
    var inner := lname + rpad;
    var piece := lpad + inner;
    assert '(' !in lpad && '/' !in lpad && '(' !in rpad && '/' !in rpad;
    assert '(' !in piece && '/' !in piece;
    var slash := first + "/";
    assert slash == first + ['/'];
    var head := slash + piece + tail;
    assert '(' !in head;
    var raw := first + "/" + lpad + lname + rpad + tail;
    assert slash + lpad + lname + rpad == slash + piece;
    assert raw == head;
    SplitPlain(head, '(');
    assert Split(raw, '(')[0] == raw;
    SecondPiece(first, piece, tail, '/');
    assert LevelPieces(raw)[1] == piece;
    TrimStartRun(lpad, inner, {' '});
    TrimEndRun(lname, rpad, {' '});
    assert Trim(piece, {' '}) == lname;
    LevelRoundTrip(l);
  }

  /** "Paper One / Higher Level (EV)", the usual shape on the site, decodes
      to the higher level. */
  lemma HigherLevelExample()
    ensures LevelFromLabel("Paper One / Higher Level (EV)") == HigherLevel
  {
    LevelOfLabelledName("Paper One ", " ", HigherLevel, " ", "", "EV)");
    assert "Paper One / Higher Level (EV)"
        == "Paper One " + "/" + " " + LevelName(HigherLevel) + " " + "" + "(" + "EV)";
  }

  /** When the second piece is not a level name, the level is `NoLevel`. */
  lemma UnknownLevel(raw: string)
    requires |LevelPieces(raw)| >= 2
    requires ParseLevel(Trim(LevelPieces(raw)[1], {' '})) == None
    ensures LevelFromLabel(raw) == NoLevel
  {
  }

  /** When the text before the first '(' holds no '/', there is no second
      piece and the level is `NoLevel`. */
  lemma LevelWithoutSlash(raw: string)
    requires '/' !in Split(raw, '(')[0]
    ensures LevelFromLabel(raw) == NoLevel
  {
  }

  /** "Ordinary Level (EV)" has no '/' before its '(', so its level is not
      recognised, while its language is. */
  lemma OrdinaryEnglishExample()
    ensures LevelFromLabel("Ordinary Level (EV)") == NoLevel
    ensures LanguageFromLabel("Ordinary Level (EV)") == English
  {
    var text := "Ordinary Level ";
    assert '(' !in text && '/' !in text;
    assert "Ordinary Level (EV)" == text + "(" + LanguageName(English) + ")" + "";
    LanguageOfLabelledName(text, English, ")", "");
    assert "Ordinary Level (EV)" == text + ['('] + "EV)";
    SplitAtFirst(text, "EV)", '(');
    LevelWithoutSlash("Ordinary Level (EV)");
  }
}
