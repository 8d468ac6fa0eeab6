/**
 * The header's theme button: which theme a click selects, and the label and
 * icon it shows, all decided by whether the current theme is dark.
 */
module ThemeToggle {
  import opened Types
  import opened ThemeContext

  datatype Icon = Sun | Moon

  predicate IsDark(t: Theme) {
    t == Dark
  }

  /** The theme a click selects. */
  function ToggleTarget(t: Theme): Theme {
    if IsDark(t) then Light else Dark
  }

  /** The button's accessible label. */
  function Label(t: Theme): string {
    if IsDark(t) then "Switch to Light Theme" else "Switch to Dark Theme"
  }

  /** The icon stands for the theme a click selects: the sun while dark, the moon otherwise. */
  function IconOf(t: Theme): Icon {
    if IsDark(t) then Sun else Moon
  }

  function ThemeName(t: Theme): string {
    match t
    case Light => "Light"
    case Dark => "Dark"
  }

  /** A click always changes the theme, and two clicks restore it. */
  lemma ToggleFlips(t: Theme)
    ensures ToggleTarget(t) != t
    ensures ToggleTarget(ToggleTarget(t)) == t
    ensures IsDark(ToggleTarget(t)) <==> !IsDark(t)
  {
  }

  /**
   * The label names the theme a click selects, reads "Switch to Light Theme"
   * exactly while dark, and the sun shows exactly while dark.
   */
  lemma LabelAndIcon(t: Theme)
    ensures Label(t) == "Switch to " + ThemeName(ToggleTarget(t)) + " Theme"
    ensures Label(t) == "Switch to Light Theme" <==> IsDark(t)
    ensures IconOf(t) == Sun <==> IsDark(t)
  {
    assert "Switch to Light Theme" != "Switch to Dark Theme" by {
      assert "Switch to Light Theme"[10] != "Switch to Dark Theme"[10];
    }
  }

  /** A click on the button: the provider's theme becomes the toggle target. */
  method Toggle(provider: ThemeProvider)
    modifies provider`theme
    ensures provider.theme == ToggleTarget(old(provider.theme))
  {
    provider.SetTheme(ToggleTarget(provider.theme));
  }
}
