/**
  The colour theme of JS/scripts.js: the `css` table of dark/light RGB
  tokens per theme, the choice made by `applyTheme`, and the two CSS
  variables it writes.
 */
module Theme {

  datatype ThemeName = Day | Night

  /** The two colour tokens a theme sets, each an "r, g, b" string. */
  datatype Colors = Colors(dark: string, light: string)

  /** `applyTheme`'s choice: "day" selects the day theme, every other value the night theme. */
  function ChooseTheme(selected: string): (t: ThemeName)
    ensures t == Day <==> selected == "day"
    ensures t == Night <==> selected != "day"
  {
    if selected == "day" then Day else Night
  }

  /** The `css` table. */
  function Css(t: ThemeName): (c: Colors)
    ensures c.dark != c.light
  {
    match t
    case Day => Colors("10, 10, 20", "255, 255, 255")
    case Night => Colors("255, 255, 255", "10, 10, 20")
  }

  /** The night theme is the day theme with its dark and light tokens swapped. */
  lemma NightSwapsDay()
    ensures Css(Night) == Colors(Css(Day).light, Css(Day).dark)
  {
  }

  /**
    `applyThemeFromPref`'s choice, with the colour-scheme media query given as
    a parameter: "night" when the environment prefers dark, "day" otherwise.
   */
  function PreferredTheme(prefersDark: bool): (name: string)
    ensures ChooseTheme(name) == (if prefersDark then Night else Day)
  {
    if prefersDark then "night" else "day"
  }

  /** The settings form's theme select and the two CSS variables on the document root. */
  class ThemeSettings {
    /** The theme select's value. */
    var selected: string
    /** `--color-dark` on the document element. */
    var colorDark: string
    /** `--color-light` on the document element. */
    var colorLight: string

    constructor ()
      ensures selected == "" && colorDark == "" && colorLight == ""
    {
      selected, colorDark, colorLight := "", "", "";
    }

    /** `applyTheme`: write both tokens of the chosen theme; the select is untouched. */
    method ApplyTheme(value: string)
      modifies this
      ensures Colors(colorDark, colorLight) == Css(ChooseTheme(value))
      ensures selected == old(selected)
    {
      var chosenTheme := if value == "day" then Day else Night;
      colorDark := Css(chosenTheme).dark;
      colorLight := Css(chosenTheme).light;
    }

    /** `applyThemeFromPref`: set the select to the preferred theme and apply it. */
    method ApplyThemeFromPref(prefersDark: bool)
      modifies this
      ensures selected == PreferredTheme(prefersDark)
      ensures Colors(colorDark, colorLight) == Css(if prefersDark then Night else Day)
    {
      var preferredTheme := if prefersDark then "night" else "day";
      selected := preferredTheme;
      ApplyTheme(preferredTheme);
    }
  }
}
