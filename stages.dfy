/** The form bodies posted for the first two stages of the archive's form.
    Each field of the site's selection widgets comes as a pair: a visible
    value field (`cbv` for a checkbox, `sbv` for a select box) and its
    companion mode field (`cbh`, `sbh`). The HTTP post itself is not part
    of this model: each stage returns the form it would send. */
module Stages {

  datatype Widget = Checkbox | SelectBox

  const FieldPrefix: string := "MaterialArchive__noTable__"

  /** The key of the visible value field of widget `w` for `field`. */
  function ValueKey(w: Widget, field: string): string
  {
    FieldPrefix + (if w == Checkbox then "cbv" else "sbv") + "__" + field
  }

  /** The key of the companion mode field of widget `w` for `field`. */
  function ModeKey(w: Widget, field: string): string
  {
    FieldPrefix + (if w == Checkbox then "cbh" else "sbh") + "__" + field
  }

  const AgreeValue: string := "MaterialArchive__noTable__cbv__AgreeCheck"
  const AgreeMode: string := "MaterialArchive__noTable__cbh__AgreeCheck"
  const ViewTypeValue: string := "MaterialArchive__noTable__sbv__ViewType"
  const ViewTypeMode: string := "MaterialArchive__noTable__sbh__ViewType"

  /** The consent fields of a user who has agreed to the terms. */
  const Agreed: map<string, string> := map[AgreeValue := "Y", AgreeMode := "N"]

  /** Every visible value field of `form` comes with its companion. */
  ghost predicate Paired(form: map<string, string>)
  {
    forall w, f :: ValueKey(w, f) in form ==> ModeKey(w, f) in form
  }

  /** The literal keys follow the widget naming convention. */
  lemma KeysFollowConvention()
    ensures AgreeValue == ValueKey(Checkbox, "AgreeCheck")
    ensures AgreeMode == ModeKey(Checkbox, "AgreeCheck")
    ensures ViewTypeValue == ValueKey(SelectBox, "ViewType")
    ensures ViewTypeMode == ModeKey(SelectBox, "ViewType")
  {
  }

  /** A value key determines its widget and field, and is never a mode key. */
  lemma ValueKeyInjective(w: Widget, f: string, w': Widget, f': string)
    ensures ValueKey(w, f) == ValueKey(w', f') ==> w == w' && f == f'
    ensures ValueKey(w, f) != ModeKey(w', f')
  {
    var n := |FieldPrefix| + 5;
    var k, k', m' := ValueKey(w, f), ValueKey(w', f'), ModeKey(w', f');
    assert k[|FieldPrefix|] == (if w == Checkbox then 'c' else 's');
    assert k'[|FieldPrefix|] == (if w' == Checkbox then 'c' else 's');
    assert k[|FieldPrefix| + 2] == 'v' && m'[|FieldPrefix| + 2] == 'h';
    if k == k' {
      assert f == k[n..] == k'[n..] == f';
    }
  }

  /** A form made of one widget's pair is paired. */
  lemma PairedOne(form: map<string, string>, w: Widget, f: string)
    requires form.Keys == {ValueKey(w, f), ModeKey(w, f)}
    ensures Paired(form)
  {
    forall w', f' | ValueKey(w', f') in form ensures ModeKey(w', f') in form {
      ValueKeyInjective(w', f', w, f);
    }
  }

  /** A form made of two widgets' pairs is paired. */
  lemma PairedTwo(form: map<string, string>, w1: Widget, f1: string, w2: Widget, f2: string)
    requires form.Keys == {ValueKey(w1, f1), ModeKey(w1, f1), ValueKey(w2, f2), ModeKey(w2, f2)}
    ensures Paired(form)
  {
    forall w', f' | ValueKey(w', f') in form ensures ModeKey(w', f') in form {
      ValueKeyInjective(w', f', w1, f1);
      ValueKeyInjective(w', f', w2, f2);
    }
  }

  /** The form of the consent stage: with consent, the checkbox pair;
      without it, nothing, which makes the site answer with the consent page
      again. */
  method StageOneForm(checked: bool) returns (form: map<string, string>)
    ensures checked ==> form == Agreed
    ensures !checked ==> form == map[]
    ensures Paired(form)
  {
    form := map[];
    if checked {
      form := form[AgreeValue := "Y"];
      form := form[AgreeMode := "N"];
    }
    KeysFollowConvention();
    if checked {
      PairedOne(form, Checkbox, "AgreeCheck");
    }
  }

  /** The form of the document-type stage: the consent pair unchanged, plus
      the type selection, whose mode field is always "id". */
  method StageTwoForm(typeId: string) returns (form: map<string, string>)
    ensures form.Keys == {AgreeValue, AgreeMode, ViewTypeValue, ViewTypeMode}
    ensures |form| == 4
    ensures form[ViewTypeValue] == typeId && form[ViewTypeMode] == "id"
    ensures form - {ViewTypeValue, ViewTypeMode} == Agreed
    ensures Paired(form)
  {
    form := map[];
    form := form[AgreeValue := "Y"];
    form := form[AgreeMode := "N"];
    form := form[ViewTypeValue := typeId];
    form := form[ViewTypeMode := "id"];
    KeysFollowConvention();
    ValueKeyInjective(Checkbox, "AgreeCheck", SelectBox, "ViewType");
    ValueKeyInjective(SelectBox, "ViewType", Checkbox, "AgreeCheck");
    PairedTwo(form, Checkbox, "AgreeCheck", SelectBox, "ViewType");
    assert AgreeMode != ViewTypeMode by {
      assert AgreeMode[|FieldPrefix|] != ViewTypeMode[|FieldPrefix|];
    }
  }
}
