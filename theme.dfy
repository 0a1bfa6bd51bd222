/**
 * The theme slice: dark mode, accent colour and animations. The browser
 * pieces it touches are modelled explicitly: the `localStorage` entries as a
 * map, whether the document root carries the `dark` class as a flag, and the
 * `prefers-color-scheme: dark` media query as an input.
 */
module Theme {
  import opened Options

  const ThemeKey: string := "theme"
  const DefaultColor: string := "blue"

  /** What `localStorage.getItem("theme")` gives: a string, `null`, or an exception. */
  datatype StorageRead = Saved(value: string) | Unset | ReadError

  /** Reading the theme entry from the store; `fails` stands for a storage that throws. */
  function ReadTheme(storage: map<string, string>, fails: bool): (r: StorageRead)
    ensures r == ReadError <==> fails
    ensures r.Saved? <==> !fails && ThemeKey in storage
    ensures r.Saved? ==> r.value == storage[ThemeKey]
  {
    if fails then ReadError
    else if ThemeKey in storage then Saved(storage[ThemeKey])
    else Unset
  }

  /** `String(darkMode)`. */
  function BoolToString(b: bool): (s: string)
    ensures s == "true" || s == "false"
    ensures s == "true" <==> b
  {
    if b then "true" else "false"
  }

  /** `getInitialTheme`: a saved entry decides, read as `=== "true"`; without one the
      system preference decides; `systemDark == None` is a media query that throws.
      Any exception gives the light theme. */
  function GetInitialTheme(saved: StorageRead, systemDark: Option<bool>): (dark: bool)
    ensures saved.Saved? ==> (dark <==> saved.value == "true")
    ensures saved.Unset? && systemDark.Some? ==> dark == systemDark.value
    ensures saved.ReadError? || (saved.Unset? && systemDark.None?) ==> !dark
  {
    match saved
    case Saved(v) => v == "true"
    case Unset => if systemDark.Some? then systemDark.value else false
    case ReadError => false
  }

  /** What the toggle stores reads back as the same mode, whatever the system prefers. */
  lemma StoredModeRoundTrip(dark: bool, systemDark: Option<bool>)
    ensures GetInitialTheme(Saved(BoolToString(dark)), systemDark) == dark
  {
  }

  /** A stored value other than exactly `"true"` (`"TRUE"`, `"1"`, `""`, ...) means light. */
  lemma OnlyTrueIsDark(v: string, systemDark: Option<bool>)
    requires v != "true"
    ensures !GetInitialTheme(Saved(v), systemDark)
  {
  }

  class ThemeStore {
    var darkMode: bool
    var themeColor: string
    var animations: bool
    /** The `localStorage` entries. */
    var storage: map<string, string>
    /** The document root carries the `dark` class. */
    var darkClass: bool

    /** `initialState`, built from what the browser holds at start-up. */
    constructor (initialStorage: map<string, string>, readFails: bool, systemDark: Option<bool>, initialClass: bool)
      ensures darkMode == GetInitialTheme(ReadTheme(initialStorage, readFails), systemDark)
      ensures themeColor == DefaultColor && animations
      ensures storage == initialStorage && darkClass == initialClass
    {
      darkMode := GetInitialTheme(ReadTheme(initialStorage, readFails), systemDark);
      themeColor := DefaultColor;
      animations := true;
      storage := initialStorage;
      darkClass := initialClass;
    }

    /** `toggleTheme`: flips the mode, stores it, and sets the document class to match.
        `writeFails` stands for a `setItem` that throws (storage denied or full): the
        reducer then aborts before the class is touched, and the state stays as it was. */
    method ToggleTheme(writeFails: bool)
      modifies this`darkMode, this`storage, this`darkClass
      ensures writeFails ==> darkMode == old(darkMode) && storage == old(storage) && darkClass == old(darkClass)
      ensures !writeFails ==> darkMode == !old(darkMode)
      ensures !writeFails ==> storage == old(storage)[ThemeKey := BoolToString(darkMode)]
      ensures !writeFails ==> darkClass == darkMode
      ensures !writeFails ==> forall systemDark: Option<bool> :: GetInitialTheme(ReadTheme(storage, false), systemDark) == darkMode
    {
      if writeFails {
        return;
      }
      darkMode := !darkMode;
      storage := storage[ThemeKey := BoolToString(darkMode)];
      darkClass := darkMode;
      forall systemDark: Option<bool> ensures GetInitialTheme(ReadTheme(storage, false), systemDark) == darkMode {
        StoredModeRoundTrip(darkMode, systemDark);
      }
    }

    /** `setThemeColor`. */
    method SetThemeColor(color: string)
      modifies this`themeColor
      ensures themeColor == color
    {
      themeColor := color;
    }

    /** `toggleAnimations`. */
    method ToggleAnimations()
      modifies this`animations
      ensures animations == !old(animations)
    {
      animations := !animations;
    }

    /** `resetTheme`: takes the system preference, forgets the stored choice, and sets the
        document class to match; a later start-up follows the system preference again.
        `writeFails` stands for a `removeItem` that throws: the reducer aborts and the
        state stays as it was. */
    method ResetTheme(systemDark: bool, writeFails: bool)
      modifies this`darkMode, this`storage, this`darkClass
      ensures writeFails ==> darkMode == old(darkMode) && storage == old(storage) && darkClass == old(darkClass)
      ensures !writeFails ==> darkMode == systemDark
      ensures !writeFails ==> storage == old(storage) - {ThemeKey}
      ensures !writeFails ==> darkClass == darkMode
      ensures !writeFails ==> GetInitialTheme(ReadTheme(storage, false), Some(systemDark)) == darkMode
    {
      if writeFails {
        return;
      }
      darkMode := systemDark;
      storage := storage - {ThemeKey};
      darkClass := systemDark;
    }
  }
}
