/**
 * The theme provider: the theme chosen on start-up, `setTheme`, and the effect
 * that mirrors the current theme into the root element's `dark` class and into
 * local storage. Whether a window exists, the stored preference and the
 * system's colour-scheme preference are inputs; the class set of the root
 * element and the storage map are fields the effect writes.
 */
module ThemeContext {
  import opened Types

  const ThemeKey: string := "theme"
  const DarkClass: string := "dark"
  const OutsideProviderMessage: string := "useTheme must be used within a ThemeProvider"

  /** The string a theme is stored as. */
  function ThemeValue(t: Theme): string {
    match t
    case Light => "light"
    case Dark => "dark"
  }

  /**
   * The start-up choice: a stored value naming a theme wins, then a dark
   * system preference; otherwise, and always without a window, Light.
   */
  function InitialTheme(hasWindow: bool, saved: Option<string>, prefersDark: bool): Theme {
    if hasWindow && saved == Some(ThemeValue(Light)) then Light
    else if hasWindow && saved == Some(ThemeValue(Dark)) then Dark
    else if hasWindow && prefersDark then Dark
    else Light
  }

  lemma InitialThemeChoice(hasWindow: bool, saved: Option<string>, prefersDark: bool)
    ensures !hasWindow ==> InitialTheme(hasWindow, saved, prefersDark) == Light
    ensures hasWindow && saved.Some? && (saved.value == "light" || saved.value == "dark") ==>
      ThemeValue(InitialTheme(hasWindow, saved, prefersDark)) == saved.value
    ensures hasWindow && !(saved == Some("light") || saved == Some("dark")) ==>
      InitialTheme(hasWindow, saved, prefersDark) == (if prefersDark then Dark else Light)
  {
  }

  /** A stored theme is restored as it was, whatever the system prefers. */
  lemma StoredThemeRestored(t: Theme, prefersDark: bool)
    ensures InitialTheme(true, Some(ThemeValue(t)), prefersDark) == t
  {
  }

  /** Two themes are never stored as the same string. */
  lemma ThemeValueInjective(a: Theme, b: Theme)
    ensures ThemeValue(a) == ThemeValue(b) <==> a == b
  {
    assert ThemeValue(Light) != ThemeValue(Dark) by { assert ThemeValue(Light)[0] != ThemeValue(Dark)[0]; }
  }

  /**
   * `useTheme`: the surrounding provider's value, or the thrown error when
   * there is none.
   */
  function UseTheme<C>(context: Option<C>): (r: Outcome<C>)
    ensures r.Err? <==> context == None
    ensures r.Err? ==> r.message == OutsideProviderMessage
    ensures r.Ok? ==> context == Some(r.value)
  {
    match context
    case None => Err(OutsideProviderMessage)
    case Some(value) => Ok(value)
  }

  class ThemeProvider {
    var theme: Theme
    var storage: map<string, string>
    var rootClasses: set<string>

    /** After the effect has run: the root is dark exactly in the dark theme, and storage holds the theme. */
    predicate Synced()
      reads this
    {
      (DarkClass in rootClasses <==> theme == Dark) &&
      ThemeKey in storage && storage[ThemeKey] == ThemeValue(theme)
    }

    /** Mounting: the theme is chosen from what storage and the system say; the effect has not run yet. */
    constructor (hasWindow: bool, stored: map<string, string>, prefersDark: bool, classes: set<string>)
      ensures theme == InitialTheme(hasWindow,
        if hasWindow && ThemeKey in stored then Some(stored[ThemeKey]) else None, prefersDark)
      ensures storage == stored && rootClasses == classes
    {
      theme := InitialTheme(hasWindow,
        if hasWindow && ThemeKey in stored then Some(stored[ThemeKey]) else None, prefersDark);
      storage := stored;
      rootClasses := classes;
    }

    /** `setTheme`: the new theme replaces the old one; the effect follows separately. */
    method SetTheme(newTheme: Theme)
      modifies this`theme
      ensures theme == newTheme
    {
      theme := newTheme;
    }

    /**
     * The effect run after each theme change: `dark` is added to or removed
     * from the root's classes and the theme is stored. Other classes and other
     * stored keys are untouched, and a reload would restore this theme.
     */
    method ApplyTheme()
      modifies this`storage, this`rootClasses
      ensures Synced()
      ensures rootClasses - {DarkClass} == old(rootClasses) - {DarkClass}
      ensures forall k | k in old(storage) && k != ThemeKey :: k in storage && storage[k] == old(storage)[k]
      ensures storage.Keys == old(storage).Keys + {ThemeKey}
      ensures forall prefersDark: bool :: InitialTheme(true, Some(storage[ThemeKey]), prefersDark) == theme
    {
      if theme == Dark {
        rootClasses := rootClasses + {DarkClass};
      } else {
        rootClasses := rootClasses - {DarkClass};
      }
      storage := storage[ThemeKey := ThemeValue(theme)];
    }

    /** A theme change followed by its effect. */
    method ChangeTheme(newTheme: Theme)
      modifies this`theme, this`storage, this`rootClasses
      ensures theme == newTheme && Synced()
      ensures rootClasses - {DarkClass} == old(rootClasses) - {DarkClass}
    {
      SetTheme(newTheme);
      ApplyTheme();
    }
  }
}
