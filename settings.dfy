/**
 * The settings panel of the selected element. Every control builds a new
 * element from the selected one by a single-key shallow merge of its props
 * and hands it to the document's `updateElement`; nothing is changed in place.
 */
module SettingsPanel {
  import opened Elements

  /** The font families offered by the font selector. */
  const Fonts: seq<string> := ["inherit", "Arial", "Verdana", "Tahoma", "Courier New", "Georgia", "Roboto"]

  /** The sizes offered by the font-size selector. */
  const FontSizes: seq<nat> := [12, 14, 16, 18, 24, 32]

  /** The values offered by the text-alignment selector. */
  const Alignments: seq<string> := ["left", "center", "right"]

  /** `handleChange(field, value)`: the selected element with `props[field]` set to `value`. */
  function HandleChange(selected: Node, field: string, value: PropVal): (r: Node)
    ensures r.id == selected.id && r.kind == selected.kind && r.children == selected.children
    ensures r.props.Keys == selected.props.Keys + {field}
    ensures r.props[field] == value
    ensures forall k :: k in selected.props && k != field ==> r.props[k] == selected.props[k]
  {
    selected.(props := selected.props[field := value])
  }

  /** `toggleStyle(field)`: sets the flag to the negation of its current truthiness. */
  function ToggleStyle(selected: Node, field: string): (r: Node)
    ensures r.id == selected.id && r.kind == selected.kind && r.children == selected.children
    ensures r.props.Keys == selected.props.Keys + {field}
    ensures r.props[field] == Bool(!Truthy(Get(selected.props, field)))
    ensures forall k :: k in selected.props && k != field ==> r.props[k] == selected.props[k]
  {
    HandleChange(selected, field, Bool(!Truthy(Get(selected.props, field))))
  }

  /** An absent (or falsy) flag becomes `true`; a truthy one becomes `false`. */
  lemma {:induction false} ToggleAbsentFlag(selected: Node, field: string)
    requires field !in selected.props
    ensures ToggleStyle(selected, field).props[field] == Bool(true)
  {
  }

  /** Toggling a flag that already holds a boolean twice gives back the original element. */
  lemma {:induction false} ToggleTwice(selected: Node, field: string)
    requires field in selected.props && selected.props[field].Bool?
    ensures ToggleStyle(ToggleStyle(selected, field), field) == selected
  {
    var once := ToggleStyle(selected, field);
    var twice := ToggleStyle(once, field);
    assert twice.props == selected.props;
  }

  /** Setting a field twice keeps only the last value. */
  lemma {:induction false} HandleChangeLastWins(selected: Node, field: string, v1: PropVal, v2: PropVal)
    ensures HandleChange(HandleChange(selected, field, v1), field, v2) == HandleChange(selected, field, v2)
  {
    assert HandleChange(HandleChange(selected, field, v1), field, v2).props == selected.props[field := v2];
  }

  // ---------------------------------------------------------------------
  // `parseInt` on the value of a font-size option

  function DigitChar(d: nat): char
    requires d < 10
  {
    "0123456789"[d]
  }

  function DigitValue(c: char): nat
  {
    if '0' <= c <= '9' then (c as int - '0' as int) as nat else 0
  }

  /** The decimal string a number option carries as its `value`. */
  function Decimal(n: nat): (s: string)
    ensures s != [] && forall i :: 0 <= i < |s| ==> '0' <= s[i] <= '9'
  {
    if n < 10 then [DigitChar(n)] else Decimal(n / 10) + [DigitChar(n % 10)]
  }

  /** `parseInt` on a non-empty string of decimal digits. */
  function ParseInt(s: string): nat
    requires forall i :: 0 <= i < |s| ==> '0' <= s[i] <= '9'
  {
    if s == [] then 0 else ParseInt(s[..|s| - 1]) * 10 + DigitValue(s[|s| - 1])
  }

  /** Reading an option's value back with `parseInt` gives the number it was written from. */
  lemma {:induction false} ParseIntDecimal(n: nat)
    ensures ParseInt(Decimal(n)) == n
  {
    if n >= 10 {
      var s := Decimal(n);
      assert s[..|s| - 1] == Decimal(n / 10);
      ParseIntDecimal(n / 10);
    }
  }

  // ---------------------------------------------------------------------
  // The controls of the panel

  /** One user action in the panel; `Pick*` carry the index of the chosen option. */
  datatype Edit =
    | EditText(text: string)
    | EditTitle(title: string)
    | EditBackground(color: string)
    | PickFont(font: nat)
    | PickFontSize(size: nat)
    | PickAlign(align: nat)
    | ToggleBold
    | ToggleItalic
    | ToggleUnderline

  /** The control is rendered for this element (and the option index exists). */
  predicate Offered(selected: Node, e: Edit)
  {
    match e
    case EditText(_) => selected.kind == Text || selected.kind == Button
    case EditTitle(_) => selected.kind == Div
    case PickFont(i) => i < |Fonts|
    case PickFontSize(i) => i < |FontSizes|
    case PickAlign(i) => i < |Alignments|
    case _ => true
  }

  /** The element the panel hands to `onChange` for one action. */
  function Apply(selected: Node, e: Edit): (r: Node)
    requires Offered(selected, e)
    ensures r.id == selected.id && r.kind == selected.kind && r.children == selected.children
    ensures r.props.Keys == selected.props.Keys + {EditedField(e)}
    ensures forall k :: k in selected.props && k != EditedField(e) ==> r.props[k] == selected.props[k]
    ensures r.props[EditedField(e)] ==
      match e
      case EditText(t) => Str(t)
      case EditTitle(t) => Str(t)
      case EditBackground(c) => Str(c)
      case PickFont(i) => Str(Fonts[i])
      case PickFontSize(i) => Int(FontSizes[i])
      case PickAlign(i) => Str(Alignments[i])
      case _ => Bool(!Truthy(Get(selected.props, EditedField(e))))
  {
    match e
    case EditText(t) => HandleChange(selected, "text", Str(t))
    case EditTitle(t) => HandleChange(selected, "title", Str(t))
    case EditBackground(c) => HandleChange(selected, "backgroundColor", Str(c))
    case PickFont(i) => HandleChange(selected, "fontFamily", Str(Fonts[i]))
    case PickFontSize(i) =>
      ParseIntDecimal(FontSizes[i]);
      HandleChange(selected, "fontSize", Int(ParseInt(Decimal(FontSizes[i]))))
    case PickAlign(i) => HandleChange(selected, "textAlign", Str(Alignments[i]))
    case ToggleBold => ToggleStyle(selected, "bold")
    case ToggleItalic => ToggleStyle(selected, "italic")
    case ToggleUnderline => ToggleStyle(selected, "underline")
  }

  /** The props key an action writes. */
  function EditedField(e: Edit): string
  {
    match e
    case EditText(_) => "text"
    case EditTitle(_) => "title"
    case EditBackground(_) => "backgroundColor"
    case PickFont(_) => "fontFamily"
    case PickFontSize(_) => "fontSize"
    case PickAlign(_) => "textAlign"
    case ToggleBold => "bold"
    case ToggleItalic => "italic"
    case ToggleUnderline => "underline"
  }
}
