/** The dark/light theme switch (persisted under "site-theme") and the
    mobile menu button. */
module Toggles {
  import opened Dom

  /** The value written to localStorage "site-theme". */
  function ThemeToken(dark: bool): string {
    if dark then "dark" else "light"
  }

  /** On load the body is dark when it already had the class or the saved
      value is "dark"; nothing removes a class the page started with. */
  predicate DarkOnLoad(bodyDark: bool, saved: Option<string>) {
    bodyDark || saved == Some("dark")
  }

  /** The stored token brings the same theme back on the next load (of a page
      whose body starts without the class), and only "dark" does so. */
  lemma ThemeTokenReloads(dark: bool, saved: Option<string>)
    ensures DarkOnLoad(false, Some(ThemeToken(dark))) == dark
    ensures DarkOnLoad(false, saved) <==> saved == Some("dark")
  {
  }

  /** The theme's live state: the body's "dark" class, the stored preference
      and the button's aria-pressed; `hasButton` is whether `#themeToggle` exists. */
  class ThemeSwitch {
    const hasButton: bool
    var dark: bool
    var stored: Option<string>
    var ariaPressed: Option<string>

    /** aria-pressed mirrors the dark flag. */
    predicate Synced()
      reads this
    {
      hasButton ==> ariaPressed == Some(BoolString(dark))
    }

    /** Load: read the saved preference, then updateThemeButton. */
    constructor Load(hasButton: bool, bodyDark: bool, saved: Option<string>, pressed: Option<string>)
      ensures this.hasButton == hasButton && stored == saved
      ensures dark == DarkOnLoad(bodyDark, saved)
      ensures ariaPressed == if hasButton then Some(BoolString(dark)) else pressed
      ensures Synced()
    {
      this.hasButton := hasButton;
      stored := saved;
      dark := bodyDark || saved == Some("dark");
      ariaPressed := pressed;
      new;
      UpdateThemeButton();
    }

    method UpdateThemeButton()
      modifies this`ariaPressed
      ensures ariaPressed == if hasButton then Some(BoolString(dark)) else old(ariaPressed)
      ensures Synced()
    {
      if !hasButton {
        return;
      }
      ariaPressed := Some(BoolString(dark));
    }

    /** A click flips the class, stores the matching token and syncs the button. */
    method Click()
      requires hasButton
      modifies this
      ensures dark == !old(dark)
      ensures stored == Some(ThemeToken(dark))
      ensures ariaPressed == Some(BoolString(dark))
      ensures Synced()
    {
      dark := !dark;
      stored := Some(if dark then "dark" else "light");
      UpdateThemeButton();
    }
  }

  /** The menu button's aria-expanded after a click: the negation of
      `aria-expanded === "true"`, so an absent or unusual value opens. */
  function FlipExpanded(ariaExpanded: Option<string>): (r: Option<string>)
    ensures IsTrue(r) == !IsTrue(ariaExpanded)
    ensures r == Some("true") || r == Some("false")
  {
    Some(BoolString(!IsTrue(ariaExpanded)))
  }

  /** Two clicks restore aria-expanded once it holds "true" or "false". */
  lemma FlipExpandedTwice(ariaExpanded: Option<string>)
    requires ariaExpanded == Some("true") || ariaExpanded == Some("false")
    ensures FlipExpanded(FlipExpanded(ariaExpanded)) == ariaExpanded
  {
  }

  /** The mobile menu: the button's aria-expanded and `#mainNav`'s "open" class. */
  class MenuToggle {
    var ariaExpanded: Option<string>
    var navOpen: bool

    /** aria-expanded says whether the navigation is open. */
    predicate Synced()
      reads this
    {
      IsTrue(ariaExpanded) == navOpen
    }

    constructor (ariaExpanded: Option<string>, navOpen: bool)
      ensures this.ariaExpanded == ariaExpanded && this.navOpen == navOpen
    {
      this.ariaExpanded, this.navOpen := ariaExpanded, navOpen;
    }

    method Click()
      modifies this
      ensures ariaExpanded == FlipExpanded(old(ariaExpanded))
      ensures navOpen == !old(navOpen)
      ensures old(Synced()) ==> Synced()
    {
      var expanded := IsTrue(ariaExpanded);
      ariaExpanded := Some(BoolString(!expanded));
      navOpen := !navOpen;
    }
  }
}
