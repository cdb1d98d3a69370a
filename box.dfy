/**
 * One cell of the board (Box.cs): its position, its danger data, and the three
 * switches of its Unity components — the button (`interactable`), the text
 * display holding the count (`textShown`) and the danger image (`dangerShown`). The components are
 * taken to exist, so every null check of the source is the taken branch.
 */
module Boxes {
  import opened Optional

  /** Number of entries of the `DangerColors` palette. */
  const PaletteSize := 8

  /** The visible state of a box: button interactable, text shown, danger image shown. */
  datatype Face = Face(active: bool, textShown: bool, dangerShown: bool)

  /** Everything about a box except its visible state. */
  datatype BoxData = BoxData(
    id: int, rowIndex: int, columnIndex: int,
    dangerNearby: int, isDangerous: bool,
    text: string, textColor: Option<nat>)

  /** A box's whole state, as a value. */
  datatype BoxState = BoxState(data: BoxData, look: Face)

  /** What Reveal makes of a box: button off, text shown, everything else kept. */
  function Revealed(b: BoxState): (r: BoxState)
    ensures r.data == b.data && !r.look.active && r.look.textShown
    ensures r.look.dangerShown == b.look.dangerShown
  {
    b.(look := Face(false, true, b.look.dangerShown))
  }

  /** Revealing twice is revealing once. */
  lemma RevealedIdempotent(b: BoxState)
    ensures Revealed(Revealed(b)) == Revealed(b)
  {
  }

  function DigitChar(d: nat): (c: char)
    requires d < 10
    ensures '0' <= c <= '9' && (c as int) - ('0' as int) == d
  {
    ('0' as int + d) as char
  }

  /** The decimal spelling of `n`, as the "D" format specifier writes a non-negative integer. */
  function Decimal(n: nat): (s: string)
    ensures |s| >= 1
    ensures forall k :: 0 <= k < |s| ==> '0' <= s[k] <= '9'
    ensures n > 0 ==> s[0] != '0'
    ensures n < 10 <==> |s| == 1
  {
    if n < 10 then [DigitChar(n)] else Decimal(n / 10) + [DigitChar(n % 10)]
  }

  /** The number a string of decimal digits denotes. */
  function DecimalValue(s: string): nat
    requires forall k :: 0 <= k < |s| ==> '0' <= s[k] <= '9'
  {
    if s == [] then 0
    else DecimalValue(s[..|s| - 1]) * 10 + ((s[|s| - 1] as int) - ('0' as int))
  }

  /** Reading back the digits gives the number it was made from. */
  lemma {:induction false} DecimalRoundTrip(n: nat)
    ensures DecimalValue(Decimal(n)) == n
  {
    if n >= 10 {
      DecimalRoundTrip(n / 10);
      var s := Decimal(n);
      assert s[..|s| - 1] == Decimal(n / 10);
    }
  }

  /** The text ResetState writes for a box whose neighbourhood holds `dangerNearby` dangerous boxes. */
  function TextFor(dangerNearby: int): (s: string)
    ensures s == [] <==> dangerNearby <= 0
    ensures forall k :: 0 <= k < |s| ==> '0' <= s[k] <= '9'
    ensures dangerNearby > 0 ==> DecimalValue(s) == dangerNearby
    ensures 0 < dangerNearby <= 9 ==> s == [DigitChar(dangerNearby)]
  {
    if dangerNearby > 0 then
      DecimalRoundTrip(dangerNearby);
      Decimal(dangerNearby)
    else []
  }

  class Box {
    /** Set once, by Setup, right after the box is made; never changed after. */
    const id: int
    const rowIndex: int
    const columnIndex: int
    var dangerNearby: int
    var isDangerous: bool
    /** `_button.interactable` */
    var interactable: bool
    /** `_textDisplay.enabled` */
    var textShown: bool
    /** `Danger.enabled` */
    var dangerShown: bool
    /** `_textDisplay.text` */
    var text: string
    /** The palette entry last given to the text's colour; None while it keeps the prefab's colour. */
    var textColor: Option<nat>

    /** The button accepts clicks. */
    predicate IsActive()
      reads this
      ensures IsActive() <==> Look().active
    {
      interactable
    }

    ghost function Look(): Face
      reads this
    {
      Face(interactable, textShown, dangerShown)
    }

    ghost function Data(): BoxData
      reads this
    {
      BoxData(id, rowIndex, columnIndex, dangerNearby, isDangerous, text, textColor)
    }

    ghost function State(): BoxState
      reads this
    {
      BoxState(Data(), Look())
    }

    /** Instantiating the prefab and calling Setup on it: the position is
        recorded, every other property holds its default, and Awake has run
        ResetState with no text to write. */
    constructor (id: int, row: int, column: int)
      ensures Data() == BoxData(id, row, column, 0, false, [], None)
      ensures Look() == Face(true, false, false)
    {
      this.id, rowIndex, columnIndex := id, row, column;
      dangerNearby, isDangerous := 0, false;
      text, textColor := [], None;
      interactable, textShown, dangerShown := true, false, false;
    }

    /** Restore the start-of-round look: danger image and text hidden, text
        rewritten from `dangerNearby`, button interactable. The text's colour is
        `DangerColors[dangerNearby - 1]`, which exists only while `dangerNearby <= 8`. */
    method ResetState()
      requires dangerNearby <= PaletteSize
      modifies this
      ensures Look() == Face(true, false, false)
      ensures text == TextFor(dangerNearby)
      ensures textColor == if dangerNearby > 0 then Some(dangerNearby - 1) else old(textColor)
      ensures dangerNearby == old(dangerNearby) && isDangerous == old(isDangerous)
    {
      dangerShown := false;
      if dangerNearby > 0 {
        text := Decimal(dangerNearby);
        textColor := Some(dangerNearby - 1);
      } else {
        text := [];
      }
      textShown := false;
      interactable := true;
    }

    /** Load the danger data for a new round and reset the look. */
    method Charge(dangerNearby: int, danger: bool)
      requires dangerNearby <= PaletteSize
      modifies this
      ensures this.dangerNearby == dangerNearby && isDangerous == danger
      ensures Look() == Face(true, false, false)
      ensures text == TextFor(dangerNearby)
      ensures textColor == if dangerNearby > 0 then Some(dangerNearby - 1) else old(textColor)
    {
      this.dangerNearby := dangerNearby;
      isDangerous := danger;
      ResetState();
    }

    /** Deactivate the button and show the text; the danger image and the data stay.
        Revealing a revealed box changes nothing, so a second Reveal is a no-op. */
    method Reveal()
      modifies this
      ensures Look() == Face(false, true, old(dangerShown))
      ensures Data() == old(Data())
      ensures old(!interactable && textShown) ==> Look() == old(Look())
    {
      interactable := false;
      textShown := true;
    }

    /** Deactivate the button and hide both the text and the danger image. */
    method StandDown()
      modifies this
      ensures Look() == Face(false, false, false)
      ensures Data() == old(Data())
    {
      interactable := false;
      dangerShown := false;
      textShown := false;
    }

    /** The button's click handler, without the callback: deactivate, then show the
        danger image of a dangerous box or the text of a safe one. */
    method OnClick()
      modifies this
      ensures Look() == if isDangerous then Face(false, old(textShown), true)
                        else Face(false, true, old(dangerShown))
      ensures Data() == old(Data())
    {
      interactable := false;
      if isDangerous {
        dangerShown := true;
      } else {
        textShown := true;
      }
    }
  }
}
