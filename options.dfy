/**
 * options/options.js: the options page. Its four settings live in the
 * browser's sync storage; the page shows them in two radio groups, a slider
 * with a label and a checkbox, and writes them back whenever one changes.
 * Storage itself is a map from key to value; reading and writing it are
 * the functions StorageGet and SaveOptions below.
 */
module Options {
  import opened Wrappers
  import opened JsValues
  import opened JsStrings

  const URL_FORMAT := "urlFormat"
  const DEBOUNCE_MS := "debounceMs"
  const TAB_BEHAVIOR := "tabBehavior"
  const CLEAR_AFTER_CLICK := "clearAfterClick"

  const DEFAULT_URL_FORMAT := "search"
  const DEFAULT_DEBOUNCE_MS := 500
  const DEFAULT_TAB_BEHAVIOR := "background"

  /** DEFAULT_OPTIONS */
  const DEFAULT_OPTIONS: map<string, JsValue> := map[
    URL_FORMAT := Str(DEFAULT_URL_FORMAT),
    DEBOUNCE_MS := Number(Int(DEFAULT_DEBOUNCE_MS)),
    TAB_BEHAVIOR := Str(DEFAULT_TAB_BEHAVIOR),
    CLEAR_AFTER_CLICK := Bool(false)
  ]

  /** The slider's range. */
  const DEBOUNCE_MIN := 0
  const DEBOUNCE_MAX := 1000

  function Max(x: int, y: int): int { if x >= y then x else y }
  function Min(x: int, y: int): int { if x <= y then x else y }

  /** clamp(v, a, b): NaN gives the lower bound, any other value is brought into [a, b]. */
  function Clamp(v: Num, a: int, b: int): (r: int)
    ensures v == NaN ==> r == a
    ensures v.Int? && a <= b ==> a <= r <= b
    ensures v.Int? && a <= v.n <= b ==> r == v.n
    ensures v.Int? && v.n < a && a <= b ==> r == a
    ensures v.Int? && b < v.n ==> r == b
    ensures v.Int? && b < a ==> r == b
  {
    match v
    case NaN => a
    case Int(x) => Min(Max(x, a), b)
  }

  /** Clamping a clamped value changes nothing. */
  lemma ClampIdempotent(v: Num, a: int, b: int)
    requires a <= b
    ensures Clamp(Int(Clamp(v, a, b)), a, b) == Clamp(v, a, b)
  {
  }

  /** The record persistFromUI builds and stores. */
  datatype SavedOptions = SavedOptions(urlFormat: string, debounceMs: int, tabBehavior: string, clearAfterClick: bool)

  /** `document.querySelector(':checked')?.value || fallback`: no checked radio, or an empty value, gives the fallback. */
  function CheckedValueOr(checked: Option<string>, fallback: string): (r: string)
    ensures checked.None? || checked.value == [] ==> r == fallback
    ensures checked.Some? && checked.value != [] ==> r == checked.value
  {
    if checked.Some? && checked.value != [] then checked.value else fallback
  }

  /**
   * `clamp(parseInt(value, 10) || 500, 0, 1000)`: always in [0, 1000]; an
   * unparsable value or 0 becomes 500 before clamping, so 0 is saved only
   * for a negative reading.
   */
  function DebounceFromSlider(rangeValue: string): (d: int)
    ensures DEBOUNCE_MIN <= d <= DEBOUNCE_MAX
    ensures ParseInt(rangeValue) == NaN || ParseInt(rangeValue) == Int(0) ==> d == DEFAULT_DEBOUNCE_MS
    ensures ParseInt(rangeValue).Int? && 0 < ParseInt(rangeValue).n <= DEBOUNCE_MAX ==> d == ParseInt(rangeValue).n
    ensures ParseInt(rangeValue).Int? && DEBOUNCE_MAX < ParseInt(rangeValue).n ==> d == DEBOUNCE_MAX
    ensures d == 0 <==> ParseInt(rangeValue).Int? && ParseInt(rangeValue).n < 0
  {
    Clamp(OrNum(ParseInt(rangeValue), Int(DEFAULT_DEBOUNCE_MS)), DEBOUNCE_MIN, DEBOUNCE_MAX)
  }

  /** The record persistFromUI builds from the state of the page's inputs. */
  function PersistRecord(urlFormatChecked: Option<string>, debounceRangeValue: string,
                         tabBehaviorChecked: Option<string>, clearAfterClickChecked: bool): (o: SavedOptions)
    ensures o.urlFormat != [] && o.tabBehavior != []
    ensures urlFormatChecked.None? || urlFormatChecked.value == [] ==> o.urlFormat == DEFAULT_URL_FORMAT
    ensures urlFormatChecked.Some? && urlFormatChecked.value != [] ==> o.urlFormat == urlFormatChecked.value
    ensures tabBehaviorChecked.None? || tabBehaviorChecked.value == [] ==> o.tabBehavior == DEFAULT_TAB_BEHAVIOR
    ensures tabBehaviorChecked.Some? && tabBehaviorChecked.value != [] ==> o.tabBehavior == tabBehaviorChecked.value
    ensures o.debounceMs == DebounceFromSlider(debounceRangeValue)
    ensures DEBOUNCE_MIN <= o.debounceMs <= DEBOUNCE_MAX
    ensures o.clearAfterClick == clearAfterClickChecked
  {
    SavedOptions(
      CheckedValueOr(urlFormatChecked, DEFAULT_URL_FORMAT),
      DebounceFromSlider(debounceRangeValue),
      CheckedValueOr(tabBehaviorChecked, DEFAULT_TAB_BEHAVIOR),
      clearAfterClickChecked)
  }

  /** The object handed to storage: one entry per default key. */
  function ToStorage(o: SavedOptions): (m: map<string, JsValue>)
    ensures m.Keys == DEFAULT_OPTIONS.Keys
  {
    map[
      URL_FORMAT := Str(o.urlFormat),
      DEBOUNCE_MS := Number(Int(o.debounceMs)),
      TAB_BEHAVIOR := Str(o.tabBehavior),
      CLEAR_AFTER_CLICK := Bool(o.clearAfterClick)
    ]
  }

  /** storage.sync.set: the given keys are overwritten, the others kept. */
  function SaveOptions(storage: map<string, JsValue>, o: SavedOptions): (s: map<string, JsValue>)
    ensures s.Keys == storage.Keys + DEFAULT_OPTIONS.Keys
    ensures forall k :: k in DEFAULT_OPTIONS ==> s[k] == ToStorage(o)[k]
    ensures forall k :: k in storage && k !in DEFAULT_OPTIONS ==> s[k] == storage[k]
  {
    storage + ToStorage(o)
  }

  /** storage.sync.get(defaults): each asked-for key, from storage when present, else its default. */
  function StorageGet(storage: map<string, JsValue>, defaults: map<string, JsValue>): (r: map<string, JsValue>)
    ensures r.Keys == defaults.Keys
    ensures forall k :: k in defaults && k in storage ==> r[k] == storage[k]
    ensures forall k :: k in defaults && k !in storage ==> r[k] == defaults[k]
  {
    map k | k in defaults :: if k in storage then storage[k] else defaults[k]
  }

  /** `Object.assign({}, DEFAULT_OPTIONS, result)` with result read by StorageGet. */
  function LoadedOptions(storage: map<string, JsValue>): (opts: map<string, JsValue>)
    ensures opts.Keys == DEFAULT_OPTIONS.Keys
  {
    DEFAULT_OPTIONS + StorageGet(storage, DEFAULT_OPTIONS)
  }

  /**
   * The merged options have exactly the default keys, each with its stored
   * value when there is one and its default otherwise.
   */
  lemma LoadedOptionsMerge(storage: map<string, JsValue>)
    ensures LoadedOptions(storage).Keys == DEFAULT_OPTIONS.Keys
    ensures forall k :: k in DEFAULT_OPTIONS && k in storage ==> LoadedOptions(storage)[k] == storage[k]
    ensures forall k :: k in DEFAULT_OPTIONS && k !in storage ==> LoadedOptions(storage)[k] == DEFAULT_OPTIONS[k]
  {
  }

  /** A saved record reads back unchanged, whatever else storage holds. */
  lemma SaveThenLoad(storage: map<string, JsValue>, o: SavedOptions)
    ensures LoadedOptions(SaveOptions(storage, o)) == ToStorage(o)
  {
    var loaded := LoadedOptions(SaveOptions(storage, o));
    LoadedOptionsMerge(SaveOptions(storage, o));
    assert loaded.Keys == ToStorage(o).Keys;
    forall k | k in loaded ensures loaded[k] == ToStorage(o)[k] {
      assert k in SaveOptions(storage, o);
    }
  }

  /** The radio the page checks for the stored URL format: anything but 'hashtag' selects 'search'. */
  function UrlFormatSelection(opts: map<string, JsValue>): (v: string)
    ensures v == "hashtag" <==> Get(opts, URL_FORMAT) == Str("hashtag")
    ensures v == "search" <==> Get(opts, URL_FORMAT) != Str("hashtag")
  {
    if Get(opts, URL_FORMAT) == Str("hashtag") then "hashtag" else "search"
  }

  /** The radio the page checks for the stored tab behaviour: anything but 'foreground' selects 'background'. */
  function TabBehaviorSelection(opts: map<string, JsValue>): (v: string)
    ensures v == "foreground" <==> Get(opts, TAB_BEHAVIOR) == Str("foreground")
    ensures v == "background" <==> Get(opts, TAB_BEHAVIOR) != Str("foreground")
  {
    if Get(opts, TAB_BEHAVIOR) == Str("foreground") then "foreground" else "background"
  }

  /** The page's view of the options; each field is an element the page writes. */
  class OptionsPage {
    /** The value of the checked radio of group urlFormat ('search' or 'hashtag'), if any is checked. */
    var urlFormatChecked: Option<string>
    /** The value of the checked radio of group tabBehavior ('background' or 'foreground'), if any is checked. */
    var tabBehaviorChecked: Option<string>
    /** The slider's value. */
    var debounceRangeValue: string
    /** The label beside the slider. */
    var debounceValueText: string
    var clearAfterClickChecked: bool

    constructor(urlFormatChecked: Option<string>, tabBehaviorChecked: Option<string>,
                debounceRangeValue: string, debounceValueText: string, clearAfterClickChecked: bool)
      ensures this.urlFormatChecked == urlFormatChecked && this.tabBehaviorChecked == tabBehaviorChecked
      ensures this.debounceRangeValue == debounceRangeValue && this.debounceValueText == debounceValueText
      ensures this.clearAfterClickChecked == clearAfterClickChecked
    {
      this.urlFormatChecked := urlFormatChecked;
      this.tabBehaviorChecked := tabBehaviorChecked;
      this.debounceRangeValue := debounceRangeValue;
      this.debounceValueText := debounceValueText;
      this.clearAfterClickChecked := clearAfterClickChecked;
    }

    /** loadOptions: show the stored options, with defaults for missing keys. */
    method LoadOptions(storage: map<string, JsValue>)
      modifies this
      ensures var opts := LoadedOptions(storage);
        urlFormatChecked == Some(UrlFormatSelection(opts))
        && tabBehaviorChecked == Some(TabBehaviorSelection(opts))
        && debounceRangeValue == ToJsString(Get(opts, DEBOUNCE_MS))
        && debounceValueText == ToJsString(Get(opts, DEBOUNCE_MS)) + "ms"
        && clearAfterClickChecked == Truthy(Get(opts, CLEAR_AFTER_CLICK))
    {
      var opts := LoadedOptions(storage);
      Show(opts);
    }

    /** The part of loadOptions that writes merged options into the page's inputs. */
    method Show(opts: map<string, JsValue>)
      modifies this
      ensures urlFormatChecked == Some(UrlFormatSelection(opts))
      ensures tabBehaviorChecked == Some(TabBehaviorSelection(opts))
      ensures debounceRangeValue == ToJsString(Get(opts, DEBOUNCE_MS))
      ensures debounceValueText == ToJsString(Get(opts, DEBOUNCE_MS)) + "ms"
      ensures clearAfterClickChecked == Truthy(Get(opts, CLEAR_AFTER_CLICK))
    {
      urlFormatChecked := Some(UrlFormatSelection(opts));
      tabBehaviorChecked := Some(TabBehaviorSelection(opts));
      debounceRangeValue := ToJsString(Get(opts, DEBOUNCE_MS));
      debounceValueText := debounceRangeValue + "ms";
      clearAfterClickChecked := Truthy(Get(opts, CLEAR_AFTER_CLICK));
    }

    /** persistFromUI: the record to store, read off the page. */
    function PersistFromUI(): (o: SavedOptions)
      reads this
      ensures urlFormatChecked.None? || urlFormatChecked.value == [] ==> o.urlFormat == DEFAULT_URL_FORMAT
      ensures urlFormatChecked.Some? && urlFormatChecked.value != [] ==> o.urlFormat == urlFormatChecked.value
      ensures tabBehaviorChecked.None? || tabBehaviorChecked.value == [] ==> o.tabBehavior == DEFAULT_TAB_BEHAVIOR
      ensures tabBehaviorChecked.Some? && tabBehaviorChecked.value != [] ==> o.tabBehavior == tabBehaviorChecked.value
      ensures o.debounceMs == DebounceFromSlider(debounceRangeValue)
      ensures DEBOUNCE_MIN <= o.debounceMs <= DEBOUNCE_MAX
      ensures o.clearAfterClick == clearAfterClickChecked
    {
      PersistRecord(urlFormatChecked, debounceRangeValue, tabBehaviorChecked, clearAfterClickChecked)
    }

    /** onRangeInput: the label follows the slider at once (the delayed save is not modelled). */
    method OnRangeInput()
      modifies this`debounceValueText
      ensures debounceValueText == debounceRangeValue + "ms"
    {
      debounceValueText := debounceRangeValue + "ms";
    }
  }

  /**
   * Saving what the page shows and loading it back shows the same thing again,
   * for a page whose radios hold their usual values and whose slider reads an
   * integer in (0, 1000].
   */
  lemma PersistThenLoadShowsSame(urlFormatChecked: string, tabBehaviorChecked: string, debounce: int,
                                 clearAfterClickChecked: bool, storage: map<string, JsValue>)
    requires urlFormatChecked == "search" || urlFormatChecked == "hashtag"
    requires tabBehaviorChecked == "background" || tabBehaviorChecked == "foreground"
    requires 0 < debounce <= DEBOUNCE_MAX
    ensures var o := PersistRecord(Some(urlFormatChecked), IntToDecimal(debounce), Some(tabBehaviorChecked), clearAfterClickChecked);
      var opts := LoadedOptions(SaveOptions(storage, o));
      UrlFormatSelection(opts) == urlFormatChecked
      && TabBehaviorSelection(opts) == tabBehaviorChecked
      && ToJsString(Get(opts, DEBOUNCE_MS)) == IntToDecimal(debounce)
      && Truthy(Get(opts, CLEAR_AFTER_CLICK)) == clearAfterClickChecked
  {
    var o := PersistRecord(Some(urlFormatChecked), IntToDecimal(debounce), Some(tabBehaviorChecked), clearAfterClickChecked);
    PersistShownRecord(urlFormatChecked, tabBehaviorChecked, debounce, clearAfterClickChecked);
    SaveThenLoad(storage, o);
    ShownSelections(o);
  }

  /** Reading the page back: the radios' values, the slider's number and the checkbox. */
  lemma PersistShownRecord(urlFormatChecked: string, tabBehaviorChecked: string, debounce: int, clearAfterClickChecked: bool)
    requires urlFormatChecked != [] && tabBehaviorChecked != []
    requires 0 < debounce <= DEBOUNCE_MAX
    ensures PersistRecord(Some(urlFormatChecked), IntToDecimal(debounce), Some(tabBehaviorChecked), clearAfterClickChecked)
      == SavedOptions(urlFormatChecked, debounce, tabBehaviorChecked, clearAfterClickChecked)
  {
    ParseIntOfDecimal(debounce);
  }

  /** What the page shows for a stored record with the usual radio values. */
  lemma ShownSelections(o: SavedOptions)
    requires o.urlFormat == "search" || o.urlFormat == "hashtag"
    requires o.tabBehavior == "background" || o.tabBehavior == "foreground"
    ensures UrlFormatSelection(ToStorage(o)) == o.urlFormat
    ensures TabBehaviorSelection(ToStorage(o)) == o.tabBehavior
    ensures ToJsString(Get(ToStorage(o), DEBOUNCE_MS)) == IntToDecimal(o.debounceMs)
    ensures Truthy(Get(ToStorage(o), CLEAR_AFTER_CLICK)) == o.clearAfterClick
  {
  }

  /** With nothing checked and an unreadable slider, the defaults are saved. */
  lemma PersistWithNothingSelected(debounceRangeValue: string, clearAfterClickChecked: bool)
    requires ParseInt(debounceRangeValue) == NaN
    ensures PersistRecord(None, debounceRangeValue, None, clearAfterClickChecked)
      == SavedOptions(DEFAULT_URL_FORMAT, DEFAULT_DEBOUNCE_MS, DEFAULT_TAB_BEHAVIOR, clearAfterClickChecked)
  {
  }
}
