/**
 * The colour history of the colour menu: the current colour, the previous
 * colour, whether the colour picker is open, and the colour the
 * current-colour swatch shows while a colour is being picked.
 */
module ColorHistory {
  import opened ColorConversion

  /** The colour both history entries start with. */
  const InitialColor := "#000000"

  class ColorMenu {
    /** The colour the pencil and the fill bucket paint with. */
    var curColor: string
    /** The current colour before its last change. */
    var prevColor: string
    /** Whether the colour picker is displayed: its `display` is `block` rather than `none`. */
    var pickerShown: bool
    /** The fill of the current-colour swatch: a picked colour waits here until the picker closes. */
    var shownColor: string

    constructor ()
      ensures curColor == InitialColor && prevColor == InitialColor
      ensures shownColor == InitialColor && !pickerShown
    {
      curColor, prevColor := InitialColor, InitialColor;
      shownColor := InitialColor;
      pickerShown := false;
    }

    /** The current-colour button: opens a closed picker, and closes an open one as removeColorPicker does. */
    method ShowColorPicker()
      modifies this
      ensures pickerShown == !old(pickerShown)
      ensures old(pickerShown) ==>
        curColor == old(shownColor) && prevColor == old(curColor) && shownColor == old(shownColor)
      ensures !old(pickerShown) ==>
        curColor == old(curColor) && prevColor == old(prevColor) && shownColor == old(shownColor)
    {
      if !pickerShown {
        pickerShown := true;
      } else {
        RemoveColorPicker();
      }
    }

    /**
     * Closing the picker commits the colour the swatch shows as the current
     * colour; when the picker is already closed nothing changes.
     */
    method RemoveColorPicker()
      modifies this
      ensures !pickerShown
      ensures old(pickerShown) ==>
        curColor == old(shownColor) && prevColor == old(curColor) && shownColor == old(shownColor)
      ensures !old(pickerShown) ==> unchanged(this)
    {
      if pickerShown {
        pickerShown := false;
        SetCurrentColor(shownColor);
      }
    }

    /** The current colour becomes the previous one, and the given colour the current one. */
    method SetCurrentColor(color: string)
      modifies this
      ensures prevColor == old(curColor) && curColor == color
      ensures shownColor == color && pickerShown == old(pickerShown)
    {
      prevColor := curColor;
      curColor := color;
      shownColor := curColor;
    }

    /**
     * A click in the picker: the swatch shows the picker's background colour
     * (CSS text such as `rgb(255, 0, 17)`) converted by rgbToHex. When the
     * conversion gives no text (undefined, which a style ignores, or a thrown
     * TypeError) the swatch keeps its colour.
     */
    method PickColor(background: string)
      modifies this
      ensures shownColor == (if RgbToHex(background).Converted? then RgbToHex(background).hex else old(shownColor))
      ensures curColor == old(curColor) && prevColor == old(prevColor) && pickerShown == old(pickerShown)
    {
      match RgbToHex(background)
      case Converted(hex) => shownColor := hex;
      case Undefined =>
      case NullMatch =>
    }

    /** The previous-colour button: the current and the previous colour trade places. */
    method ChoosePreviousColor()
      modifies this
      ensures curColor == old(prevColor) && prevColor == old(curColor)
      ensures shownColor == old(prevColor) && pickerShown == old(pickerShown)
    {
      SetCurrentColor(prevColor);
    }
  }

  /** Choosing the previous colour twice restores the colour history. */
  method ChoosePreviousTwice(menu: ColorMenu)
    modifies menu
    ensures menu.curColor == old(menu.curColor) && menu.prevColor == old(menu.prevColor)
  {
    menu.ChoosePreviousColor();
    menu.ChoosePreviousColor();
  }

  /**
   * Opening the picker, picking a colour and moving the pointer back over
   * the canvas makes the picked colour current and the old current colour
   * previous.
   */
  method PickAndCommit(menu: ColorMenu, background: string)
    requires !menu.pickerShown && RgbToHex(background).Converted?
    modifies menu
    ensures menu.curColor == RgbToHex(background).hex && menu.prevColor == old(menu.curColor)
    ensures !menu.pickerShown
  {
    menu.ShowColorPicker();
    menu.PickColor(background);
    menu.RemoveColorPicker();
  }
}
