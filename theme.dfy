/**
 * The dark-mode flag (src/context/ThemeContext.jsx), mirrored into browser
 * local storage under "darkMode". Local storage is a map from key to text.
 */
module Theme {
  import opened Wrappers

  const DarkModeKey: string := "darkMode"

  /** `JSON.stringify` of a boolean. */
  function FlagText(flag: bool): (text: string)
    ensures text == "true" || text == "false"
  {
    if flag then "true" else "false"
  }

  /** Whitespace that `JSON.parse` skips around a value: space, tab, line feed, carriage return. */
  predicate IsJsonWhitespace(c: char) {
    c == ' ' || c == '\t' || c == '\n' || c == '\r'
  }

  /** The text with the JSON whitespace at both ends removed. */
  function TrimJson(text: string): (core: string)
    ensures |core| <= |text|
    ensures core != [] ==> !IsJsonWhitespace(core[0]) && !IsJsonWhitespace(core[|core| - 1])
    ensures text != [] && !IsJsonWhitespace(text[0]) && !IsJsonWhitespace(text[|text| - 1]) ==> core == text
    decreases |text|
  {
    if text != [] && IsJsonWhitespace(text[0]) then TrimJson(text[1..])
    else if text != [] && IsJsonWhitespace(text[|text| - 1]) then TrimJson(text[..|text| - 1])
    else text
  }

  /** `text[i..j]` is the text with only JSON whitespace before and after it. */
  ghost predicate PaddedAround(text: string, i: int, j: int) {
    && 0 <= i <= j <= |text|
    && (forall k :: 0 <= k < i ==> IsJsonWhitespace(text[k]))
    && (forall k :: j <= k < |text| ==> IsJsonWhitespace(text[k]))
  }

  /** Padding around a stretch of the tail grows by a leading whitespace character. */
  lemma PadFront(text: string, i: int, j: int)
    requires text != [] && IsJsonWhitespace(text[0]) && PaddedAround(text[1..], i, j)
    ensures PaddedAround(text, i + 1, j + 1) && text[1..][i..j] == text[i + 1..j + 1]
  {
    forall k | 0 < k < i + 1
      ensures IsJsonWhitespace(text[k])
    {
      assert text[k] == text[1..][k - 1];
    }
    forall k | j + 1 <= k < |text|
      ensures IsJsonWhitespace(text[k])
    {
      assert text[k] == text[1..][k - 1];
    }
  }

  /** Padding around a stretch of the front part grows by a trailing whitespace character. */
  lemma PadBack(text: string, i: int, j: int)
    requires text != [] && IsJsonWhitespace(text[|text| - 1]) && PaddedAround(text[..|text| - 1], i, j)
    ensures PaddedAround(text, i, j) && text[..|text| - 1][i..j] == text[i..j]
  {
    forall k | 0 <= k < i
      ensures IsJsonWhitespace(text[k])
    {
      assert text[k] == text[..|text| - 1][k];
    }
    forall k | j <= k < |text| - 1
      ensures IsJsonWhitespace(text[k])
    {
      assert text[k] == text[..|text| - 1][k];
    }
  }

  /**
   * Trimming removes only padding: the result is a contiguous stretch of the
   * text, and everything before and after it is JSON whitespace.
   */
  lemma {:induction false} TrimJsonKeepsCore(text: string)
    ensures exists i, j :: PaddedAround(text, i, j) && TrimJson(text) == text[i..j]
    decreases |text|
  {
    if text != [] && IsJsonWhitespace(text[0]) {
      TrimJsonKeepsCore(text[1..]);
      var i, j :| PaddedAround(text[1..], i, j) && TrimJson(text[1..]) == text[1..][i..j];
      PadFront(text, i, j);
    } else if text != [] && IsJsonWhitespace(text[|text| - 1]) {
      TrimJsonKeepsCore(text[..|text| - 1]);
      var i, j :| PaddedAround(text[..|text| - 1], i, j) && TrimJson(text[..|text| - 1]) == text[..|text| - 1][i..j];
      PadBack(text, i, j);
    } else {
      assert PaddedAround(text, 0, |text|) && TrimJson(text) == text[0..|text|];
    }
  }

  /**
   * `JSON.parse` of a stored flag, for the texts that parse to a boolean: a
   * boolean literal with optional JSON whitespace around it. Any other text
   * throws or parses to something else, and is outside what this model reads back.
   */
  function ParseFlag(text: string): (flag: Option<bool>)
    ensures flag.Some? ==> TrimJson(text) == FlagText(flag.value)
    ensures TrimJson(text) == "true" || TrimJson(text) == "false" ==> flag.Some?
  {
    var core := TrimJson(text);
    if core == "true" then Some(true)
    else if core == "false" then Some(false)
    else None
  }

  /** Padding around a boolean literal does not change what it parses to. */
  lemma PaddedFlagsParse()
    ensures ParseFlag(" true\n") == Some(true)
    ensures ParseFlag("\tfalse ") == Some(false)
    ensures ParseFlag(" ") == None
  {
    assert TrimJson(" true\n") == TrimJson("true\n") == TrimJson("true");
    assert TrimJson("\tfalse ") == TrimJson("false ") == TrimJson("false");
    assert TrimJson(" ") == TrimJson("");
  }

  /**
   * The initial flag: the parsed stored value when there is a non-empty one,
   * otherwise false.
   */
  function InitialDarkMode(storage: map<string, string>): (flag: Option<bool>)
    ensures DarkModeKey !in storage || storage[DarkModeKey] == "" ==> flag == Some(false)
    ensures flag.Some? && DarkModeKey in storage && storage[DarkModeKey] != "" ==>
      TrimJson(storage[DarkModeKey]) == FlagText(flag.value)
    ensures DarkModeKey in storage && TrimJson(storage[DarkModeKey]) in {"true", "false"} ==> flag.Some?
  {
    if DarkModeKey in storage && storage[DarkModeKey] != "" then ParseFlag(storage[DarkModeKey])
    else Some(false)
  }

  /**
   * Parsing a serialised flag gives the flag back, and a text parses to a flag
   * only if it is that flag's text up to JSON whitespace.
   */
  lemma FlagRoundTrip(flag: bool, text: string)
    ensures ParseFlag(FlagText(flag)) == Some(flag)
    ensures ParseFlag(text) == Some(flag) ==> TrimJson(text) == FlagText(flag)
  {
  }

  /**
   * What the provider writes is what the next load reads: a stored flag
   * survives a reload, and the other keys play no part in it.
   */
  lemma ReloadRestoresFlag(storage: map<string, string>, flag: bool)
    ensures InitialDarkMode(storage[DarkModeKey := FlagText(flag)]) == Some(flag)
    ensures DarkModeKey !in storage ==> InitialDarkMode(storage) == Some(false)
  {
    FlagRoundTrip(flag, FlagText(flag));
  }

  /** The provider's state: the flag and the local storage it mirrors into. */
  class ThemeProvider {
    var isDarkMode: bool
    var storage: map<string, string>

    /** After every change the stored text is the serialised current flag. */
    ghost predicate Valid()
      reads this
    {
      DarkModeKey in storage && storage[DarkModeKey] == FlagText(isDarkMode)
    }

    /** Mount: load the initial flag, then the persisting effect writes it back. */
    constructor (stored: map<string, string>)
      requires InitialDarkMode(stored).Some?
      ensures Valid()
      ensures isDarkMode == InitialDarkMode(stored).value
      ensures storage == stored[DarkModeKey := FlagText(isDarkMode)]
    {
      var flag := InitialDarkMode(stored).value;
      isDarkMode := flag;
      storage := stored[DarkModeKey := FlagText(flag)];
    }

    /** `toggleDarkMode` and the effect it triggers: negate, then persist; no other key changes. */
    method ToggleDarkMode()
      requires Valid()
      modifies this
      ensures Valid()
      ensures isDarkMode == !old(isDarkMode)
      ensures storage == old(storage)[DarkModeKey := FlagText(isDarkMode)]
      ensures forall key :: key != DarkModeKey ==> (key in storage <==> key in old(storage))
      ensures forall key :: key in storage && key != DarkModeKey ==> storage[key] == old(storage)[key]
    {
      isDarkMode := !isDarkMode;
      storage := storage[DarkModeKey := FlagText(isDarkMode)];
    }

    /** Toggling twice restores both the flag and the storage. */
    method ToggleTwice()
      requires Valid()
      modifies this
      ensures Valid()
      ensures isDarkMode == old(isDarkMode) && storage == old(storage)
    {
      ToggleDarkMode();
      ToggleDarkMode();
    }
  }
}
