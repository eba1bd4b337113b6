/** The day/night colour scheme chosen from the settings form. */
module Theme {

  /** The settings form's theme value and the two colour tokens applied to
      the page (`--color-dark` and `--color-light`). */
  datatype ThemeState = ThemeState(value: string, colorDark: string, colorLight: string)

  const Day: string := "day"
  const Night: string := "night"

  /** The two colour triples the scheme swaps between. */
  const Bright: string := "255, 255, 255"
  const Dim: string := "10, 10, 20"

  /** `toggleTheme`: night only when the environment prefers a dark scheme
      and "night" was selected; any other value, or a light preference,
      gives day. `prefersDark` is false when media queries are unavailable. */
  function ToggleTheme(theme: string, prefersDark: bool): (t: ThemeState)
    ensures t.value == Night <==> prefersDark && theme == Night
    ensures t.value == Night || t.value == Day
    ensures t.value == Night ==> t.colorDark == Bright && t.colorLight == Dim
    ensures t.value == Day ==> t.colorDark == Dim && t.colorLight == Bright
  {
    if prefersDark && theme == Night then ThemeState(Night, Bright, Dim)
    else ThemeState(Day, Dim, Bright)
  }

  /** Re-applying the value the toggle settled on changes nothing, and the
      two tokens are always the two distinct colours, swapped. */
  lemma ToggleThemeStable(theme: string, prefersDark: bool)
    ensures var t := ToggleTheme(theme, prefersDark);
      && ToggleTheme(t.value, prefersDark) == t
      && {t.colorDark, t.colorLight} == {Bright, Dim}
      && t.colorDark != t.colorLight
  {
  }
}
