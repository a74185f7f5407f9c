/**
 * The mobile hamburger menu: the `.nav-menu` element's `mobile-active` class and
 * the `#mobileMenuToggle` button's `active` class (app.js:369-401).
 */
module MobileMenu {

  class Menu {
    /** Whether both the toggle button and the menu exist; without them no handler is installed. */
    const present: bool
    /** `.nav-menu` carries `mobile-active`. */
    var menuActive: bool
    /** `#mobileMenuToggle` carries `active`. */
    var toggleActive: bool

    /**
     * The two classes always agree: they are only ever flipped or cleared together;
     * without the elements nothing ever sets them.
     */
    ghost predicate Valid()
      reads this
    {
      menuActive == toggleActive && (!present ==> !menuActive)
    }

    /** Whether the menu is shown open. */
    predicate IsOpen()
      reads this
    {
      menuActive
    }

    /** The page's markup starts with neither class set. */
    constructor (present: bool)
      ensures Valid() && this.present == present
      ensures !menuActive && !toggleActive
    {
      this.present := present;
      menuActive := false;
      toggleActive := false;
    }

    /** A click on the toggle button flips both classes. */
    method ToggleClick()
      requires Valid()
      modifies this
      ensures Valid()
      ensures present ==> menuActive == !old(menuActive) && toggleActive == !old(toggleActive)
      ensures !present ==> menuActive == old(menuActive) && toggleActive == old(toggleActive)
    {
      if present {
        menuActive := !menuActive;
        toggleActive := !toggleActive;
      }
    }

    /**
     * A click anywhere in the document; `onToggle` and `onMenu` say whether its target
     * lies inside the toggle button or inside the menu. Outside both, the menu closes.
     */
    method DocumentClick(onToggle: bool, onMenu: bool)
      requires Valid()
      modifies this
      ensures Valid()
      ensures present && !onToggle && !onMenu ==> !menuActive && !toggleActive
      ensures !(present && !onToggle && !onMenu) ==>
                menuActive == old(menuActive) && toggleActive == old(toggleActive)
    {
      if present && !onToggle && !onMenu {
        menuActive := false;
        toggleActive := false;
      }
    }

    /** `closeMobileMenu`: clears both classes when both elements exist. */
    method Close()
      requires Valid()
      modifies this
      ensures Valid()
      ensures !menuActive && !toggleActive
    {
      if present {
        menuActive := false;
        toggleActive := false;
      }
    }
  }
}
