/** The light/dark switch of `theme.js`. The page's theme is the `data-theme` attribute of
    the root element, and the choice is remembered in local storage under `app_theme`. */
module Theme {
  import opened Wrappers

  const Light := "light"
  const Dark := "dark"

  /** The attribute and the stored choice; an absent one (or unreadable storage) is `None`. */
  datatype Page = Page(dataTheme: Option<string>, stored: Option<string>)

  /** `x || fallback` on an optional string: `null` and "" are falsy. */
  function OrLight(x: Option<string>): (r: string)
    ensures x.Some? && x.value != "" ==> r == x.value
    ensures x.None? || x.value == "" ==> r == Light
  {
    if x.Some? && x.value != "" then x.value else Light
  }

  /** `currentTheme`: the attribute, or "light" when it is absent or empty. */
  function CurrentTheme(p: Page): (r: string)
    ensures r != ""
    ensures p.dataTheme.None? ==> r == Light
  {
    OrLight(p.dataTheme)
  }

  /** `applyTheme`: sets the attribute (the buttons follow, see `Icon`). */
  function ApplyTheme(p: Page, theme: string): (r: Page)
    ensures r.stored == p.stored && r.dataTheme == Some(theme)
  {
    p.(dataTheme := Some(theme))
  }

  /** `init`: the stored theme, or "light", is applied unless it is already current;
      storage is only read. */
  function Init(p: Page): (r: Page)
    ensures CurrentTheme(r) == OrLight(p.stored)
    ensures r.stored == p.stored
    ensures CurrentTheme(p) == OrLight(p.stored) ==> r == p
  {
    var theme := OrLight(p.stored);
    if CurrentTheme(p) != theme then ApplyTheme(p, theme) else p
  }

  /** `saveTheme`: the theme is written under `app_theme`; when `setItem` throws (storage
      full or disabled, `canStore` false) the error is logged and swallowed, and the
      stored choice stays as it was. */
  function SaveTheme(p: Page, theme: string, canStore: bool): (r: Page)
    ensures r.dataTheme == p.dataTheme
    ensures canStore ==> r.stored == Some(theme)
    ensures !canStore ==> r == p
  {
    if canStore then p.(stored := Some(theme)) else p
  }

  /** `toggle`: "dark" becomes "light" and every other theme becomes "dark"; the new theme
      is applied, and stored when storage accepts it. */
  function Toggle(p: Page, canStore: bool): (r: Page)
    ensures CurrentTheme(p) == Dark ==> CurrentTheme(r) == Light
    ensures CurrentTheme(p) != Dark ==> CurrentTheme(r) == Dark
    ensures r.dataTheme == Some(CurrentTheme(r))
    ensures canStore ==> r.stored == r.dataTheme
    ensures !canStore ==> r.stored == p.stored
  {
    var next := if CurrentTheme(p) == Dark then Light else Dark;
    SaveTheme(ApplyTheme(p, next), next, canStore)
  }

  /** On the two themes the page offers, toggling twice comes back to where it started. */
  lemma ToggleIsInvolution(p: Page, canStore: bool, canStoreAgain: bool)
    requires CurrentTheme(p) == Light || CurrentTheme(p) == Dark
    ensures CurrentTheme(Toggle(Toggle(p, canStore), canStoreAgain)) == CurrentTheme(p)
    ensures CurrentTheme(Toggle(p, canStore)) != CurrentTheme(p)
  {
  }

  /** Any other theme is not restored: two toggles from it end on "light". */
  lemma ToggleForgetsOtherThemes(canStore: bool)
    ensures CurrentTheme(Toggle(Toggle(Page(Some("sepia"), None), canStore), canStore)) == Light
  {
  }

  /** After a toggle that storage accepted, reloading the page shows the theme the toggle
      chose. */
  lemma ToggleSurvivesReload(p: Page, freshAttribute: Option<string>)
    ensures CurrentTheme(Init(Toggle(p, true).(dataTheme := freshAttribute))) == CurrentTheme(Toggle(p, true))
  {
  }

  /** When storage refuses the write the toggle still shows, but a reload goes back to the
      theme stored before it. */
  lemma RefusedSaveIsForgotten(p: Page, freshAttribute: Option<string>)
    ensures CurrentTheme(Init(Toggle(p, false).(dataTheme := freshAttribute))) == OrLight(p.stored)
  {
  }

  datatype Glyph = Moon | Sun

  datatype Icon = Icon(glyph: Glyph, title: string)

  /** `updateIcon`: a moon and "Switch to Light Mode" on the dark theme, otherwise a sun
      and "Switch to Dark Mode". */
  function UpdateIcon(theme: string): (r: Icon)
    ensures r.title == "Switch to Light Mode" <==> theme == Dark
    ensures r.title == "Switch to Dark Mode" <==> theme != Dark
    ensures r.glyph == Moon <==> theme == Dark
  {
    if theme == Dark then Icon(Moon, "Switch to Light Mode") else Icon(Sun, "Switch to Dark Mode")
  }

  /** The button's title always offers the theme a click would switch to. */
  lemma TitleOffersNextTheme(p: Page, canStore: bool)
    ensures UpdateIcon(CurrentTheme(p)).title == "Switch to Light Mode" <==> CurrentTheme(Toggle(p, canStore)) == Light
  {
  }
}
