/** The treasure hunt state machine: the board is created closed, one
    treasure is placed at a drawn index, and each click opens a box and
    counts until the treasure box is opened. Every React state update is
    modelled as one synchronous transition from the state before the event. */
module Game {
  import opened Boxes
  import opened Wrappers

  /** The component's game state: the board, the treasure index (`None`
      until the placement effect has run), the win flag and the click count. */
  datatype GameState = GameState(
    boxes: seq<Box>,
    treasureIndex: Option<int>,
    found: bool,
    clicks: int)

  /** The state as first rendered, before the placement effect has run. */
  function Fresh(): (s: GameState)
    ensures |s.boxes| == GridSize
    ensures CountOpened(s.boxes) == 0 && CountTreasures(s.boxes) == 0
    ensures s.treasureIndex == None && !s.found && s.clicks == 0
  {
    var s := GameState(ClosedGrid(GridSize), None, false, 0);
    CountOpenedBounds(s.boxes);
    NoTreasureCount(s.boxes);
    s
  }

  /** Turns a uniform sample `u` from [0, 1) into a box index by scaling to
      the grid size and rounding down. */
  function DrawIndex(u: real): (idx: int)
    requires 0.0 <= u < 1.0
    ensures 0 <= idx < GridSize
    ensures idx as real <= u * GridSize as real < idx as real + 1.0
  {
    (u * GridSize as real).Floor
  }

  /** The placement effect: records the treasure index and marks that box of
      the given grid as the treasure, keeping its `opened` flag. */
  function PlaceTreasure(s: GameState, idx: int): (r: GameState)
    requires 0 <= idx < |s.boxes|
    ensures |r.boxes| == |s.boxes| && r.treasureIndex == Some(idx)
    ensures r.boxes[idx] == Box(s.boxes[idx].isOpen, true)
    ensures forall j :: 0 <= j < |s.boxes| && j != idx ==> r.boxes[j] == s.boxes[j]
    ensures r.found == s.found && r.clicks == s.clicks
  {
    s.(boxes := s.boxes[idx := s.boxes[idx].(isTreasure := true)],
       treasureIndex := Some(idx))
  }

  /** The game as it stands once the placement effect has run on the fresh
      grid with the drawn index `idx`. */
  function Init(idx: int): (s: GameState)
    requires 0 <= idx < GridSize
    ensures |s.boxes| == GridSize
    ensures forall j :: 0 <= j < GridSize ==> !s.boxes[j].isOpen
    ensures forall j :: 0 <= j < GridSize ==> (s.boxes[j].isTreasure <==> j == idx)
    ensures s.treasureIndex == Some(idx)
    ensures !s.found && s.clicks == 0
  {
    PlaceTreasure(Fresh(), idx)
  }

  /** The click handler for box `i`. Once the game is won it does nothing.
      Otherwise it counts the click, opens box `i` whether or not it was
      already open, and wins exactly when `i` is the treasure index. */
  function Click(s: GameState, i: int): (r: GameState)
    requires 0 <= i < |s.boxes|
    ensures s.found ==> r == s
    ensures r.treasureIndex == s.treasureIndex && |r.boxes| == |s.boxes|
    ensures !s.found ==> r.clicks == s.clicks + 1
    ensures !s.found ==> r.boxes[i] == Box(true, s.boxes[i].isTreasure)
    ensures forall j :: 0 <= j < |s.boxes| && j != i ==> r.boxes[j] == s.boxes[j]
    ensures r.found <==> s.found || s.treasureIndex == Some(i)
  {
    if s.found then s
    else
      GameState(
        s.boxes[i := s.boxes[i].(isOpen := true)],
        s.treasureIndex,
        s.treasureIndex == Some(i),
        s.clicks + 1)
  }

  /** Every index of `cs` addresses a box of a grid of length `n`. */
  predicate ValidClicks(n: nat, cs: seq<int>)
  {
    forall k :: 0 <= k < |cs| ==> 0 <= cs[k] < n
  }

  /** The state after the clicks `cs`, in order, starting from `s`. */
  function Play(s: GameState, cs: seq<int>): (r: GameState)
    requires ValidClicks(|s.boxes|, cs)
    ensures |r.boxes| == |s.boxes| && r.treasureIndex == s.treasureIndex
    ensures forall j :: 0 <= j < |s.boxes| ==> r.boxes[j].isTreasure == s.boxes[j].isTreasure
    decreases |cs|
  {
    if |cs| == 0 then s else Play(Click(s, cs[0]), cs[1..])
  }

  /** The treasure has been placed at an in-range index, it is the only
      treasure, and the win flag says exactly whether that box is open. */
  predicate TreasureInvariant(s: GameState)
  {
    && |s.boxes| == GridSize
    && s.treasureIndex.Some?
    && 0 <= s.treasureIndex.value < GridSize
    && (forall j :: 0 <= j < |s.boxes| ==> (s.boxes[j].isTreasure <==> j == s.treasureIndex.value))
    && (s.found <==> s.boxes[s.treasureIndex.value].isOpen)
  }

  /** Every opened box took at least one click. */
  predicate ClicksInvariant(s: GameState)
  {
    s.clicks >= CountOpened(s.boxes)
  }

  /** Both invariants of a reachable state. */
  predicate Reachable(s: GameState)
  {
    TreasureInvariant(s) && ClicksInvariant(s)
  }

  /** The initial game satisfies both invariants and holds exactly one
      treasure and no open box. */
  lemma InitReachable(idx: int)
    requires 0 <= idx < GridSize
    ensures Reachable(Init(idx))
    ensures CountTreasures(Init(idx).boxes) == 1
    ensures CountOpened(Init(idx).boxes) == 0
  {
    var s := Init(idx);
    SingleTreasureCount(s.boxes, idx);
    CountOpenedBounds(s.boxes);
  }

  /** A click keeps both invariants. */
  lemma ClickPreservesReachable(s: GameState, i: int)
    requires 0 <= i < |s.boxes|
    requires Reachable(s)
    ensures Reachable(Click(s, i))
  {
    if !s.found {
      CountOpenedUpdate(s.boxes, i, s.boxes[i].(isOpen := true));
      assert Click(s, i).boxes == s.boxes[i := s.boxes[i].(isOpen := true)];
    }
  }

  /** Every state reached from initialisation by any sequence of clicks
      satisfies both invariants and still holds exactly one treasure. */
  lemma {:induction false} PlayPreservesReachable(s: GameState, cs: seq<int>)
    requires ValidClicks(|s.boxes|, cs)
    requires Reachable(s)
    ensures Reachable(Play(s, cs))
    ensures CountTreasures(Play(s, cs).boxes) == 1
    decreases |cs|
  {
    if |cs| == 0 {
      SingleTreasureCount(s.boxes, s.treasureIndex.value);
    } else {
      ClickPreservesReachable(s, cs[0]);
      PlayPreservesReachable(Click(s, cs[0]), cs[1..]);
    }
  }

  /** Starting from any drawn index, every click sequence leads to a state
      with both invariants. */
  lemma ReachableFromInit(idx: int, cs: seq<int>)
    requires 0 <= idx < GridSize
    requires ValidClicks(GridSize, cs)
    ensures Reachable(Play(Init(idx), cs))
    ensures CountTreasures(Play(Init(idx), cs).boxes) == 1
  {
    InitReachable(idx);
    PlayPreservesReachable(Init(idx), cs);
  }

  /** In a reachable state a win has taken at least one click. */
  lemma FoundTookAClick(s: GameState)
    requires Reachable(s)
    requires s.found
    ensures s.clicks >= 1
  {
    CountOpenedBounds(s.boxes);
  }

  /** Over any click sequence `opened` flags never revert, the win flag never
      goes back to false, and the click count never decreases. */
  lemma {:induction false} PlayMonotone(s: GameState, cs: seq<int>)
    requires ValidClicks(|s.boxes|, cs)
    ensures forall j :: 0 <= j < |s.boxes| && s.boxes[j].isOpen ==> Play(s, cs).boxes[j].isOpen
    ensures s.found ==> Play(s, cs).found
    ensures Play(s, cs).clicks >= s.clicks
    decreases |cs|
  {
    if |cs| > 0 {
      PlayMonotone(Click(s, cs[0]), cs[1..]);
    }
  }

  /** Once the game is won, no click sequence changes anything. */
  lemma {:induction false} PlayFrozenAfterWin(s: GameState, cs: seq<int>)
    requires ValidClicks(|s.boxes|, cs)
    requires s.found
    ensures Play(s, cs) == s
    decreases |cs|
  {
    if |cs| > 0 {
      PlayFrozenAfterWin(Click(s, cs[0]), cs[1..]);
    }
  }

  /** Before the treasure is placed no click sequence wins, yet every click
      is counted. */
  lemma {:induction false} UnplacedNeverWins(s: GameState, cs: seq<int>)
    requires ValidClicks(|s.boxes|, cs)
    requires s.treasureIndex == None && !s.found
    ensures !Play(s, cs).found
    ensures Play(s, cs).clicks == s.clicks + |cs|
    decreases |cs|
  {
    if |cs| > 0 {
      UnplacedNeverWins(Click(s, cs[0]), cs[1..]);
    }
  }

  /** The first click of a new game wins exactly on the treasure box; either
      way it counts one click and opens only the clicked box. */
  lemma FirstClick(idx: int, j: int)
    requires 0 <= idx < GridSize && 0 <= j < GridSize
    ensures Click(Init(idx), j).found <==> j == idx
    ensures Click(Init(idx), j).clicks == 1
    ensures Click(Init(idx), j).boxes[j] == Box(true, j == idx)
    ensures CountOpened(Click(Init(idx), j).boxes) == 1
  {
    var s := Init(idx);
    CountOpenedBounds(s.boxes);
    CountOpenedUpdate(s.boxes, j, s.boxes[j].(isOpen := true));
    assert Click(s, j).boxes == s.boxes[j := s.boxes[j].(isOpen := true)];
  }

  /** There is no guard for an already-open box: clicking it again while the
      game is live leaves the board as it was but still counts the click. */
  lemma ReclickCounts(s: GameState, i: int)
    requires 0 <= i < |s.boxes|
    requires Reachable(s) && !s.found
    requires s.boxes[i].isOpen
    ensures Click(s, i).boxes == s.boxes
    ensures Click(s, i).clicks == s.clicks + 1
    ensures !Click(s, i).found
  {
  }

  /** Clicking the same live box twice in a row counts two clicks, where
      only one box was newly opened. */
  lemma DoubleClickCountsTwice(idx: int, j: int)
    requires 0 <= idx < GridSize && 0 <= j < GridSize && j != idx
    ensures Play(Init(idx), [j, j]).clicks == 2
    ensures CountOpened(Play(Init(idx), [j, j]).boxes) == 1
  {
    var s1 := Click(Init(idx), j);
    FirstClick(idx, j);
    InitReachable(idx);
    ClickPreservesReachable(Init(idx), j);
    ReclickCounts(s1, j);
    assert [j, j][1..] == [j] && [j][1..] == [];
    assert Play(s1, [j]) == Play(Click(s1, j), []);
  }
}
