/** The values the page derives from the game state for display: each box's
    button variant and glyph, the hint number and the status banner. */
module Render {
  import opened Boxes
  import opened Wrappers
  import opened Game

  /** The three button looks a box can have. */
  datatype Variant = Outline | Secondary | Destructive

  /** The glyph shown on an opened treasure box (U+1F48E, gem stone). */
  const Gem: string := "\U{1F48E}"

  /** The reward code announced on a win. */
  const TreasureCode: string := "Ba6oooo6 \U{1F425}"

  /** A closed box is outlined; an opened box is destructive when it holds
      the treasure and secondary otherwise. */
  function VariantOf(b: Box): (v: Variant)
    ensures v == Outline <==> !b.isOpen
    ensures v == Destructive <==> b.isOpen && b.isTreasure
    ensures v == Secondary <==> b.isOpen && !b.isTreasure
  {
    if b.isOpen then (if b.isTreasure then Destructive else Secondary) else Outline
  }

  /** The text inside a box's button: the gem on an opened treasure box,
      nothing anywhere else. */
  function GlyphOf(b: Box): (g: string)
    ensures g == Gem <==> b.isOpen && b.isTreasure
    ensures g == "" <==> !(b.isOpen && b.isTreasure)
  {
    if b.isOpen && b.isTreasure then Gem else ""
  }

  /** The glyph and the variant agree: a box shows the gem exactly when it
      is drawn as destructive. */
  lemma GlyphAgreesWithVariant(b: Box)
    ensures GlyphOf(b) == Gem <==> VariantOf(b) == Destructive
    ensures GlyphOf(b) == "" <==> VariantOf(b) in {Outline, Secondary}
  {
  }

  /** In a reachable state the board shows a destructive box exactly when the
      game is won, and only the treasure box can be drawn that way. */
  lemma DestructiveIffFound(s: GameState)
    requires Reachable(s)
    ensures s.found <==> exists j :: 0 <= j < |s.boxes| && VariantOf(s.boxes[j]) == Destructive
    ensures forall j :: 0 <= j < |s.boxes| && VariantOf(s.boxes[j]) == Destructive
              ==> s.treasureIndex == Some(j)
  {
  }

  /** The hint line: shown while the game is not won, the hint is enabled and
      the treasure has been placed; it names the treasure box counting from 1. */
  function Hint(s: GameState, showHint: bool): (h: Option<int>)
    ensures h.Some? <==> !s.found && showHint && s.treasureIndex.Some?
    ensures h.Some? ==> h.value - 1 == s.treasureIndex.value
  {
    if !s.found && showHint && s.treasureIndex.Some?
    then Some(s.treasureIndex.value + 1)
    else None
  }

  /** In a reachable state a shown hint lies in [1, GridSize] and points, one
      based, at the box holding the treasure. */
  lemma HintPointsAtTreasure(s: GameState, showHint: bool)
    requires Reachable(s)
    requires Hint(s, showHint).Some?
    ensures 1 <= Hint(s, showHint).value <= GridSize
    ensures s.boxes[Hint(s, showHint).value - 1].isTreasure
  {
  }

  /** The status line above the board. */
  datatype Banner =
    | Congratulations(clicks: int, code: string)
    | Instructions(clicks: int)

  /** A won game announces the click count and the treasure code; a live
      game shows the running click count. */
  function BannerOf(s: GameState): (b: Banner)
    ensures b.Congratulations? <==> s.found
    ensures b.clicks == s.clicks
    ensures b.Congratulations? ==> b.code == TreasureCode
  {
    if s.found then Congratulations(s.clicks, TreasureCode) else Instructions(s.clicks)
  }

  /** In a reachable state the congratulation never reports fewer than one
      click, nor fewer clicks than there are opened boxes. */
  lemma BannerReportsAClick(s: GameState)
    requires Reachable(s)
    requires s.found
    ensures BannerOf(s).clicks >= 1
    ensures BannerOf(s).clicks >= CountOpened(s.boxes)
  {
    FoundTookAClick(s);
  }
}
