/**
 * The event handling of one frame of the game loop: window-close events
 * stop the game, clicks on the mole's cell relocate the mole, and every
 * other event is ignored.
 */
module GameLoop {
  import opened Wrappers
  import opened Coordinates
  import opened Moles
  import opened Relocation

  /** The input events the loop tells apart; a click carries the mouse position. */
  datatype Event = Quit | Click(at: Pixel) | Other

  /** What a frame's events leave behind: the running flag, the mole, and the next unused draw. */
  datatype FrameOutcome = FrameOutcome(running: bool, mole: MoleState, next: nat)

  /**
   * The frame's event handling as a value: events processed in order from
   * mole state m, relocations drawing from draws[next..]. None when a
   * relocation would need more draws than there are.
   */
  function HandleFrame(events: seq<Event>, m: MoleState, imageCount: nat, draws: seq<Cell>, next: nat): (r: Option<FrameOutcome>)
    requires 0 < imageCount && next <= |draws|
    ensures r.Some? ==> next <= r.value.next <= |draws| && m.hits <= r.value.mole.hits
    ensures r.Some? && r.value.mole.hits == m.hits ==> r.value.mole == m && r.value.next == next
    decreases |events|
  {
    if events == [] then Some(FrameOutcome(true, m, next))
    else match events[0]
      case Quit => Some(FrameOutcome(false, m, next))
      case Other => HandleFrame(events[1..], m, imageCount, draws, next)
      case Click(p) =>
        if ScreenToGridPoint(p) != m.pos then HandleFrame(events[1..], m, imageCount, draws, next)
        else
          var k := FirstDifferent(m.pos, draws[next..]);
          if next + k == |draws| then None
          else HandleFrame(events[1..], AfterSetPos(m, draws[next + k], imageCount), imageCount, draws, next + k + 1)
  }

  /**
   * The handler stops at the first Quit: whatever follows it in the batch
   * has no effect, and running is false afterwards.
   */
  lemma {:induction false} StopsAtFirstQuit(before: seq<Event>, after: seq<Event>, m: MoleState, imageCount: nat, draws: seq<Cell>, next: nat)
    requires 0 < imageCount && next <= |draws|
    requires Quit !in before
    ensures HandleFrame(before + [Quit] + after, m, imageCount, draws, next) ==
      match HandleFrame(before, m, imageCount, draws, next)
      case None => None
      case Some(o) => Some(o.(running := false))
    decreases |before|
  {
    var events := before + [Quit] + after;
    if before == [] {
      assert events[0] == Quit;
    } else {
      assert events[0] == before[0];
      assert events[1..] == before[1..] + [Quit] + after;
      match before[0]
      case Quit =>
      case Other =>
        StopsAtFirstQuit(before[1..], after, m, imageCount, draws, next);
      case Click(p) =>
        if ScreenToGridPoint(p) == m.pos {
          var k := FirstDifferent(m.pos, draws[next..]);
          if next + k < |draws| {
            StopsAtFirstQuit(before[1..], after, AfterSetPos(m, draws[next + k], imageCount), imageCount, draws, next + k + 1);
          }
        } else {
          StopsAtFirstQuit(before[1..], after, m, imageCount, draws, next);
        }
    }
  }

  /** The game keeps running after a frame exactly when the frame had no Quit event. */
  lemma {:induction false} RunningIffNoQuit(events: seq<Event>, m: MoleState, imageCount: nat, draws: seq<Cell>, next: nat)
    requires 0 < imageCount && next <= |draws|
    requires HandleFrame(events, m, imageCount, draws, next).Some?
    ensures HandleFrame(events, m, imageCount, draws, next).value.running <==> Quit !in events
    decreases |events|
  {
    if events != [] {
      assert events == [events[0]] + events[1..];
      match events[0]
      case Quit =>
      case Other =>
        RunningIffNoQuit(events[1..], m, imageCount, draws, next);
      case Click(p) =>
        if ScreenToGridPoint(p) == m.pos {
          var k := FirstDifferent(m.pos, draws[next..]);
          RunningIffNoQuit(events[1..], AfterSetPos(m, draws[next + k], imageCount), imageCount, draws, next + k + 1);
        } else {
          RunningIffNoQuit(events[1..], m, imageCount, draws, next);
        }
    }
  }

  /**
   * A single click relocates the mole exactly when its cell is the mole's:
   * then the mole moves to a different cell and its image index and hit
   * count advance by one; otherwise nothing changes.
   */
  lemma ClickRelocatesIffOnMole(p: Pixel, m: MoleState, imageCount: nat, draws: seq<Cell>, next: nat)
    requires 0 < imageCount && next <= |draws|
    requires HandleFrame([Click(p)], m, imageCount, draws, next).Some?
    ensures var o := HandleFrame([Click(p)], m, imageCount, draws, next).value;
      o.running &&
      (ScreenToGridPoint(p) == m.pos <==> o.mole.hits == m.hits + 1) &&
      (ScreenToGridPoint(p) == m.pos ==>
         o.mole.pos != m.pos && o.mole.imageIndex == NextImageIndex(m.imageIndex, imageCount) && next < o.next) &&
      (ScreenToGridPoint(p) != m.pos ==> o.mole == m && o.next == next)
  {
    assert [Click(p)][1..] == [];
  }

  /**
   * Handling a batch is handling its first part and then, if that did not
   * stop at a Quit, the rest from the state it left.
   */
  lemma {:induction false} HandleFrameAppend(before: seq<Event>, after: seq<Event>, m: MoleState, imageCount: nat, draws: seq<Cell>, next: nat)
    requires 0 < imageCount && next <= |draws|
    ensures HandleFrame(before + after, m, imageCount, draws, next) ==
      match HandleFrame(before, m, imageCount, draws, next)
      case None => None
      case Some(o) => if o.running then HandleFrame(after, o.mole, imageCount, draws, o.next) else Some(o)
    decreases |before|
  {
    if before == [] {
      assert before + after == after;
    } else {
      assert (before + after)[0] == before[0];
      assert (before + after)[1..] == before[1..] + after;
      match before[0]
      case Quit =>
      case Other =>
        HandleFrameAppend(before[1..], after, m, imageCount, draws, next);
      case Click(p) =>
        if ScreenToGridPoint(p) == m.pos {
          var k := FirstDifferent(m.pos, draws[next..]);
          if next + k < |draws| {
            HandleFrameAppend(before[1..], after, AfterSetPos(m, draws[next + k], imageCount), imageCount, draws, next + k + 1);
          }
        } else {
          HandleFrameAppend(before[1..], after, m, imageCount, draws, next);
        }
    }
  }

  /**
   * A click anywhere in a batch acts on the mole as the events before it
   * left it, exactly as a one-click frame would (ClickRelocatesIffOnMole),
   * and the events after it continue from there.
   */
  lemma ClickAnywhere(before: seq<Event>, p: Pixel, after: seq<Event>, m: MoleState, imageCount: nat, draws: seq<Cell>, next: nat)
    requires 0 < imageCount && next <= |draws|
    requires HandleFrame(before, m, imageCount, draws, next).Some?
    requires HandleFrame(before, m, imageCount, draws, next).value.running
    ensures var o := HandleFrame(before, m, imageCount, draws, next).value;
      HandleFrame(before + [Click(p)] + after, m, imageCount, draws, next) ==
        match HandleFrame([Click(p)], o.mole, imageCount, draws, o.next)
        case None => None
        case Some(c) => HandleFrame(after, c.mole, imageCount, draws, c.next)
  {
    var o := HandleFrame(before, m, imageCount, draws, next).value;
    assert before + [Click(p)] + after == before + ([Click(p)] + after);
    HandleFrameAppend(before, [Click(p)] + after, m, imageCount, draws, next);
    HandleFrameAppend([Click(p)], after, o.mole, imageCount, draws, o.next);
    if HandleFrame([Click(p)], o.mole, imageCount, draws, o.next).Some? {
      ClickRelocatesIffOnMole(p, o.mole, imageCount, draws, o.next);
    }
  }

  /**
   * Two clicks on the mole's cell in one frame: the first relocates the
   * mole, so the second misses and changes nothing.
   */
  lemma SecondClickOnOldCellMisses(p: Pixel, m: MoleState, imageCount: nat, draws: seq<Cell>, next: nat)
    requires 0 < imageCount && next <= |draws|
    requires ScreenToGridPoint(p) == m.pos
    requires HandleFrame([Click(p)], m, imageCount, draws, next).Some?
    ensures HandleFrame([Click(p), Click(p)], m, imageCount, draws, next) == HandleFrame([Click(p)], m, imageCount, draws, next)
  {
    var o := HandleFrame([Click(p)], m, imageCount, draws, next).value;
    ClickRelocatesIffOnMole(p, m, imageCount, draws, next);
    assert [Click(p), Click(p)] == [Click(p)] + [Click(p)];
    HandleFrameAppend([Click(p)], [Click(p)], m, imageCount, draws, next);
    ClickRelocatesIffOnMole(p, o.mole, imageCount, draws, o.next);
  }

  /** Events other than Quit and Click change nothing. */
  lemma OtherIgnored(rest: seq<Event>, m: MoleState, imageCount: nat, draws: seq<Cell>, next: nat)
    requires 0 < imageCount && next <= |draws|
    ensures HandleFrame([Other] + rest, m, imageCount, draws, next) == HandleFrame(rest, m, imageCount, draws, next)
  {
    assert ([Other] + rest)[1..] == rest;
  }

  /**
   * If the mole is on the grid with a consistent image index and every draw
   * is on the grid, the frame leaves it so, and draws are only consumed.
   */
  lemma {:induction false} HandleFramePreservesInvariant(events: seq<Event>, m: MoleState, imageCount: nat, draws: seq<Cell>, next: nat)
    requires 0 < imageCount && next <= |draws|
    requires InGrid(m.pos) && Consistent(m, imageCount) && AllInGrid(draws)
    requires HandleFrame(events, m, imageCount, draws, next).Some?
    ensures var o := HandleFrame(events, m, imageCount, draws, next).value;
      InGrid(o.mole.pos) && Consistent(o.mole, imageCount) && o.mole.hits >= m.hits && next <= o.next <= |draws|
    decreases |events|
  {
    if events != [] {
      match events[0]
      case Quit =>
      case Other =>
        HandleFramePreservesInvariant(events[1..], m, imageCount, draws, next);
      case Click(p) =>
        if ScreenToGridPoint(p) == m.pos {
          var k := FirstDifferent(m.pos, draws[next..]);
          assert draws[next..][k] == draws[next + k];
          AfterSetPosConsistent(m, draws[next + k], imageCount);
          HandleFramePreservesInvariant(events[1..], AfterSetPos(m, draws[next + k], imageCount), imageCount, draws, next + k + 1);
        } else {
          HandleFramePreservesInvariant(events[1..], m, imageCount, draws, next);
        }
    }
  }

  /**
   * The event-dispatch loop of one frame. The draws from index `next` on are
   * the random source; `nextAfter` is the first draw left unused.
   */
  method HandleEvents<Image>(mole: Mole<Image>, events: seq<Event>, draws: seq<Cell>, next: nat) returns (running: bool, nextAfter: nat)
    requires mole.Valid() && 0 < |mole.images| && next <= |draws|
    requires HandleFrame(events, mole.State(), |mole.images|, draws, next).Some?
    modifies mole
    ensures mole.Valid()
    ensures HandleFrame(events, old(mole.State()), |mole.images|, draws, next) == Some(FrameOutcome(running, mole.State(), nextAfter))
  {
    running := true;
    nextAfter := next;
    var i := 0;
    while i < |events|
      invariant 0 <= i <= |events| && nextAfter <= |draws|
      invariant mole.Valid()
      invariant running
      invariant HandleFrame(events[i..], mole.State(), |mole.images|, draws, nextAfter) ==
        HandleFrame(events, old(mole.State()), |mole.images|, draws, next)
    {
      assert events[i..][0] == events[i] && events[i..][1..] == events[i + 1..];
      match events[i] {
        case Quit =>
          running := false;
          break;
        case Click(p) =>
          var current := mole.GetPos();
          if ScreenToGridPoint(p) == current {
            ghost var k := FirstDifferent(current, draws[nextAfter..]);
            assert draws[nextAfter..][k] != current;
            var newPos, used := GetNextMoleGridPosition(current, draws[nextAfter..]);
            mole.SetPos(newPos);
            nextAfter := nextAfter + used;
          }
        case Other =>
      }
      i := i + 1;
    }
  }

  /**
   * The scenario of a new mole at (0, 0) with two images: a click at pixel
   * (10, 10) moves it off (0, 0) and shows the second image, and the pixel
   * (630, 500) belongs to cell (19, 15).
   */
  lemma FirstClickScenario(draws: seq<Cell>)
    requires HandleFrame([Click(Pixel(10, 10))], MoleState(Cell(0, 0), 0, 0), 2, draws, 0).Some?
    ensures var o := HandleFrame([Click(Pixel(10, 10))], MoleState(Cell(0, 0), 0, 0), 2, draws, 0).value;
      o.running && o.mole.pos != Cell(0, 0) && o.mole.imageIndex == 1 && o.mole.hits == 1
    ensures ScreenToGridPoint(Pixel(630, 500)) == Cell(19, 15)
  {
    ClickRelocatesIffOnMole(Pixel(10, 10), MoleState(Cell(0, 0), 0, 0), 2, draws, 0);
  }
}
