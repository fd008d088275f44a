/** The settings page: the fixed style and color options, the checkbox
    toggles that edit the two preference lists, the form's validation, and
    what a submitted form stores. */
module Settings {
  import opened Wrappers
  import opened Schema
  import Storage

  datatype StyleOption = Casual | Formal | Sporty | Vintage | Minimalist

  datatype ColorOption = Neutral | Warm | Cool | Bright | Pastel

  /** The options in the order the page lists them. */
  const StyleOptions: seq<StyleOption> := [Casual, Formal, Sporty, Vintage, Minimalist]

  const ColorOptions: seq<ColorOption> := [Neutral, Warm, Cool, Bright, Pastel]

  function StyleId(o: StyleOption): string
  {
    match o
    case Casual => "casual"
    case Formal => "formal"
    case Sporty => "sporty"
    case Vintage => "vintage"
    case Minimalist => "minimalist"
  }

  function ColorId(o: ColorOption): string
  {
    match o
    case Neutral => "neutral"
    case Warm => "warm"
    case Cool => "cool"
    case Bright => "bright"
    case Pastel => "pastel"
  }

  /** Each option is listed exactly once, so there are five of each. */
  lemma OptionsListEveryOptionOnce()
    ensures forall o: StyleOption :: o in StyleOptions
    ensures forall o: ColorOption :: o in ColorOptions
    ensures forall i, j | 0 <= i < j < |StyleOptions| :: StyleId(StyleOptions[i]) != StyleId(StyleOptions[j])
    ensures forall i, j | 0 <= i < j < |ColorOptions| :: ColorId(ColorOptions[i]) != ColorId(ColorOptions[j])
  {
    forall o: StyleOption ensures o in StyleOptions {
      var i := match o case Casual => 0 case Formal => 1 case Sporty => 2 case Vintage => 3 case Minimalist => 4;
      assert StyleOptions[i] == o;
    }
    forall o: ColorOption ensures o in ColorOptions {
      var i := match o case Neutral => 0 case Warm => 1 case Cool => 2 case Bright => 3 case Pastel => 4;
      assert ColorOptions[i] == o;
    }
  }

  /** The style enum of the form schema: accepts exactly the five ids. */
  function ParseStyle(s: string): (r: Option<StyleOption>)
    ensures r.Some? ==> StyleId(r.value) == s
    ensures r.None? ==> forall o: StyleOption :: StyleId(o) != s
  {
    if s == "casual" then Some(Casual)
    else if s == "formal" then Some(Formal)
    else if s == "sporty" then Some(Sporty)
    else if s == "vintage" then Some(Vintage)
    else if s == "minimalist" then Some(Minimalist)
    else None
  }

  /** The color enum of the form schema: accepts exactly the five ids. */
  function ParseColor(s: string): (r: Option<ColorOption>)
    ensures r.Some? ==> ColorId(r.value) == s
    ensures r.None? ==> forall o: ColorOption :: ColorId(o) != s
  {
    if s == "neutral" then Some(Neutral)
    else if s == "warm" then Some(Warm)
    else if s == "cool" then Some(Cool)
    else if s == "bright" then Some(Bright)
    else if s == "pastel" then Some(Pastel)
    else None
  }

  lemma ParseOptionIds(s: StyleOption, c: ColorOption)
    ensures ParseStyle(StyleId(s)) == Some(s)
    ensures ParseColor(ColorId(c)) == Some(c)
  {
  }

  /** `z.array(z.enum([...]))`: succeeds when every element parses. */
  function ValidateAll<T>(vs: seq<string>, parse: string -> Option<T>): (r: Option<seq<T>>)
    ensures r.Some? <==> forall i | 0 <= i < |vs| :: parse(vs[i]).Some?
    ensures r.Some? ==> |r.value| == |vs| && forall i | 0 <= i < |vs| :: parse(vs[i]) == Some(r.value[i])
  {
    if |vs| == 0 then Some([])
    else
      match parse(vs[0])
      case None => None
      case Some(x) =>
        var rest := ValidateAll(vs[1..], parse);
        assert forall i | 1 <= i < |vs| :: vs[i] == vs[1..][i - 1];
        if rest.None? then None else Some([x] + rest.value)
  }

  /** The form state: the checked options of each list. */
  datatype FormValues = FormValues(stylePreferences: seq<StyleOption>, colorPreferences: seq<ColorOption>)

  /** The form defaults: nothing checked in either list. */
  function DefaultValues(): (f: FormValues)
    ensures forall o: StyleOption :: !IsChecked(f.stylePreferences, o)
    ensures forall o: ColorOption :: !IsChecked(f.colorPreferences, o)
  {
    FormValues([], [])
  }

  /** `field.value?.includes(id)`: the checkbox's checked state. */
  predicate IsChecked<T(==)>(values: seq<T>, id: T)
  {
    id in values
  }

  /** `values.filter((value) => value !== id)`. */
  function Without<T(==,!new)>(values: seq<T>, id: T): (r: seq<T>)
    ensures id !in r
    ensures |r| <= |values|
    ensures forall x | x != id :: multiset(r)[x] == multiset(values)[x]
  {
    if |values| == 0 then []
    else
      var rest := Without(values[1..], id);
      assert values == [values[0]] + values[1..];
      (if values[0] == id then [] else [values[0]]) + rest
  }

  /** The `onCheckedChange` handler: checking appends the id at the end,
      unchecking removes every occurrence of it. */
  function Toggle<T(==,!new)>(values: seq<T>, id: T, checked: bool): (r: seq<T>)
    ensures IsChecked(r, id) == checked
    ensures checked ==> |r| == |values| + 1 && r[..|values|] == values && r[|values|] == id
    ensures !checked ==> forall x | x != id :: multiset(r)[x] == multiset(values)[x]
  {
    if checked then values + [id] else Without(values, id)
  }

  lemma {:induction false} WithoutAbsent<T(!new)>(values: seq<T>, id: T)
    requires id !in values
    ensures Without(values, id) == values
  {
    if |values| > 0 {
      WithoutAbsent(values[1..], id);
      assert values == [values[0]] + values[1..];
    }
  }

  /** Unchecking works element by element, so the entries it keeps stay in
      their original order. */
  lemma {:induction false} WithoutAppend<T(!new)>(a: seq<T>, b: seq<T>, id: T)
    ensures Without(a + b, id) == Without(a, id) + Without(b, id)
  {
    if |a| > 0 {
      WithoutAppend(a[1..], b, id);
      assert (a + b)[1..] == a[1..] + b;
    } else {
      assert a + b == b;
    }
  }

  /** Checking an option that was not checked and unchecking it again
      restores the list exactly. */
  lemma CheckThenUncheckRestores<T(!new)>(values: seq<T>, id: T)
    requires !IsChecked(values, id)
    ensures Toggle(Toggle(values, id, true), id, false) == values
  {
    WithoutAppend(values, [id], id);
    WithoutAbsent(values, id);
    assert Without([id], id) == [];
  }

  /** Unchecking twice is unchecking once. */
  lemma UncheckIdempotent<T(!new)>(values: seq<T>, id: T)
    ensures Toggle(Toggle(values, id, false), id, false) == Toggle(values, id, false)
  {
    WithoutAbsent(Without(values, id), id);
  }

  function ToggleStyle(f: FormValues, o: StyleOption, checked: bool): (g: FormValues)
    ensures g.colorPreferences == f.colorPreferences
    ensures IsChecked(g.stylePreferences, o) == checked
    ensures g.stylePreferences == Toggle(f.stylePreferences, o, checked)
  {
    f.(stylePreferences := Toggle(f.stylePreferences, o, checked))
  }

  function ToggleColor(f: FormValues, o: ColorOption, checked: bool): (g: FormValues)
    ensures g.stylePreferences == f.stylePreferences
    ensures IsChecked(g.colorPreferences, o) == checked
    ensures g.colorPreferences == Toggle(f.colorPreferences, o, checked)
  {
    f.(colorPreferences := Toggle(f.colorPreferences, o, checked))
  }

  function StyleIds(xs: seq<StyleOption>): (r: seq<string>)
    ensures |r| == |xs| && forall i | 0 <= i < |xs| :: r[i] == StyleId(xs[i])
  {
    seq(|xs|, i requires 0 <= i < |xs| => StyleId(xs[i]))
  }

  function ColorIds(xs: seq<ColorOption>): (r: seq<string>)
    ensures |r| == |xs| && forall i | 0 <= i < |xs| :: r[i] == ColorId(xs[i])
  {
    seq(|xs|, i requires 0 <= i < |xs| => ColorId(xs[i]))
  }

  /** The request body the form submits. */
  function Submit(f: FormValues): InsertPreferences
  {
    InsertPreferences(StyleIds(f.stylePreferences), ColorIds(f.colorPreferences))
  }

  /** The form schema: both lists must hold option ids only. */
  function ValidateForm(p: InsertPreferences): (r: Option<FormValues>)
    ensures r.Some? <==>
      && (forall i | 0 <= i < |p.stylePreferences| :: ParseStyle(p.stylePreferences[i]).Some?)
      && (forall i | 0 <= i < |p.colorPreferences| :: ParseColor(p.colorPreferences[i]).Some?)
    ensures r.Some? ==> Submit(r.value) == p
  {
    var styles := ValidateAll(p.stylePreferences, ParseStyle);
    var colors := ValidateAll(p.colorPreferences, ParseColor);
    if styles.Some? && colors.Some? then
      var f := FormValues(styles.value, colors.value);
      assert StyleIds(f.stylePreferences) == p.stylePreferences;
      assert ColorIds(f.colorPreferences) == p.colorPreferences;
      Some(f)
    else None
  }

  /** Whatever the checkboxes did, the submitted form validates and decodes
      back to the same form. */
  lemma SubmitValidates(f: FormValues)
    ensures ValidateForm(Submit(f)) == Some(f)
  {
    var p := Submit(f);
    forall i | 0 <= i < |p.stylePreferences| ensures ParseStyle(p.stylePreferences[i]) == Some(f.stylePreferences[i]) {
      ParseOptionIds(f.stylePreferences[i], Neutral);
    }
    forall i | 0 <= i < |p.colorPreferences| ensures ParseColor(p.colorPreferences[i]) == Some(f.colorPreferences[i]) {
      ParseOptionIds(Casual, f.colorPreferences[i]);
    }
    var r := ValidateForm(p).value;
    assert r.stylePreferences == f.stylePreferences;
    assert r.colorPreferences == f.colorPreferences;
  }

  /** Saving the form stores it as the preferences singleton under id 1, and
      the stored record decodes back to the form. */
  lemma SavedPreferencesMatchForm(s: Storage.MemStorage, f: FormValues)
    requires Storage.Valid(s)
    ensures var (t, p) := Storage.UpdatePreferences(s, Submit(f));
      && Storage.GetPreferences(t) == Some(p)
      && p.id == 1
      && ValidateForm(PreferencesFields(p)) == Some(f)
  {
    SubmitValidates(f);
  }
}
