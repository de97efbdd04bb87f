/** The falling-block engine as a state-transition system on values: one step
    function per action of the game hook (place, promote the next piece, move,
    rotate, hard drop, gravity tick, start, reset, resize). The class in module
    TetrisGame performs the same actions in place and is proved against them. */
module TetrisRules {
  import opened TetrisShapes
  import opened TetrisBoard

  /** The hook's state. `history` lists every piece placed since the last start or
      reset, in order; `synced` says the board has not been cleared by a resize since. */
  datatype Engine = Engine(
    isPlaying: bool,
    current: Option<Block>,
    next: Option<Block>,
    placed: map<string, Block>,
    available: seq<Skill>,
    used: seq<Skill>,
    width: int,
    height: int,
    board: Grid,
    history: seq<Block>,
    synced: bool)

  /** What every step keeps: the board is width x height (at least 20 x 18) and the
      pieces in play are pieces. */
  predicate Inv(e: Engine) {
    && e.width >= 20 && e.height >= 18
    && IsGrid(e.board, e.width, e.height)
    && (e.current.Some? ==> IsPiece(e.current.value.shape))
    && (e.next.Some? ==> IsPiece(e.next.value.shape))
  }

  /** The record of placed pieces agrees with the board: `placed` indexes the placed
      pieces by id, and until a resize the board is exactly the placed pieces painted
      onto an empty board. Every step keeps this too (lemmas at the end of this module). */
  predicate Consistent(e: Engine)
    requires Inv(e)
  {
    && e.placed == Index(e.history)
    && (e.synced ==> e.board == PaintAll(EmptyGrid(e.width, e.height), e.width, e.height, e.history))
  }

  /** The collision test against the engine's board. */
  predicate Fits(e: Engine, b: Block)
    requires IsGrid(e.board, e.width, e.height)
  {
    FitsOn(e.board, e.width, e.height, b)
  }

  /** The hook's initial state for the skill list `skills`: idle, 30 x 18 cells, empty board. */
  function Initial(skills: seq<Skill>): (e: Engine)
    ensures Inv(e) && !e.isPlaying && e.current.None? && e.next.None?
    ensures e.available == skills && e.used == [] && e.placed == map[]
    ensures e.width == 30 && e.height == 18 && e.board == EmptyGrid(30, 18)
    ensures e.history == [] && e.synced
  {
    Engine(false, None, None, map[], skills, [], 30, 18, EmptyGrid(30, 18), [], true)
  }

  // ---------------------------------------------------------------------
  // Placing a piece

  /** Placing `b` on the board; the flag says whether it was placed (see PlaceSpec). */
  function PlaceStep(e: Engine, b: Block): (r: (Engine, bool))
    requires Inv(e)
    ensures Inv(r.0)
  {
    if !Fits(e, b) then (e, false)
    else (Placed(e, b), true)
  }

  /** The state after `b` has been placed (the success branch of PlaceStep). */
  function Placed(e: Engine, b: Block): Engine
    requires IsGrid(e.board, e.width, e.height) && e.width >= 0 && e.height >= 0
  {
    e.(board := Stamp(e.board, e.width, e.height, b), placed := e.placed[b.id := b],
       used := e.used + [b.skill], history := e.history + [b])
  }

  /** Placing is refused, with nothing changed, unless the piece fits; otherwise the piece
      is recorded under its id, its skill is appended to the used skills, and nothing but
      the board changes besides. */
  lemma PlaceSpec(e: Engine, b: Block)
    requires Inv(e)
    ensures var r := PlaceStep(e, b);
      && (r.1 <==> Fits(e, b))
      && (!r.1 ==> r.0 == e)
      && (r.1 ==> r.0 == e.(board := r.0.board, placed := e.placed[b.id := b],
                            used := e.used + [b.skill], history := e.history + [b]))
  {
  }

  /** A placed piece turns exactly the cells under it to 1, and it no longer fits at the
      same spot. */
  lemma PlaceCells(e: Engine, b: Block)
    requires Inv(e) && Fits(e, b)
    ensures var g := PlaceStep(e, b).0.board;
      && (forall row, col :: 0 <= row < e.height && 0 <= col < e.width ==>
            g[row][col] == if Covers(b, row, col) then 1 else e.board[row][col])
      && (Occupied(b.shape) ==> !FitsOn(g, e.width, e.height, b))
  {
    if Occupied(b.shape) {
      StampBlocksItself(e.board, e.width, e.height, b);
    }
  }

  // ---------------------------------------------------------------------
  // Promoting the next piece

  /** Promotion of the next piece and drawing of a new one (see PromoteSpec).
      `k1`, `k2` are the random shape choices and `now` the timestamp. */
  function PromoteStep(e: Engine, k1: nat, k2: nat, now: nat): (r: Engine)
    requires Inv(e) && k1 < |Catalog| && k2 < |Catalog|
    ensures Inv(r)
  {
    match e.next
    case Some(nb) =>
      var rest := WithoutSkill(e.available, nb.skill.id);
      if rest != [] then
        e.(current := Some(nb.(y := 0)), next := Some(NewBlock(rest[0], k1, now, e.width)), available := rest)
      else if e.used != [] then
        e.(current := Some(nb.(y := 0)), next := Some(NewBlock(e.used[0], k1, now, e.width)), available := e.used, used := [])
      else
        e.(current := Some(nb.(y := 0)), next := None, available := [])
    case None =>
      if e.available != [] then
        var first := e.available[0];
        var second := if |e.available| > 1 then Some(NewBlock(e.available[1], k2, now, e.width)) else e.next;
        e.(current := Some(NewBlock(first, k1, now, e.width)), next := second, available := WithoutSkill(e.available, first.id))
      else e
  }

  /** The next piece becomes current in row 0, and a new next piece is drawn from the first
      remaining available skill; when none remain the used skills are cycled back, and
      when there are none of those either there is no next piece. Without a next piece,
      the first two available skills are drawn. Board and placed pieces are untouched. */
  lemma PromoteSpec(e: Engine, k1: nat, k2: nat, now: nat)
    requires Inv(e) && k1 < |Catalog| && k2 < |Catalog|
    ensures var r := PromoteStep(e, k1, k2, now);
      && r == e.(current := r.current, next := r.next, available := r.available, used := r.used)
      && (e.next.Some? ==> r.current == Some(e.next.value.(y := 0)))
      && (e.next.Some? && WithoutSkill(e.available, e.next.value.skill.id) != [] ==>
            var rest := WithoutSkill(e.available, e.next.value.skill.id);
            r.available == rest && r.used == e.used && r.next == Some(NewBlock(rest[0], k1, now, e.width)))
      && (e.next.Some? && WithoutSkill(e.available, e.next.value.skill.id) == [] && e.used != [] ==>
            r.available == e.used && r.used == [] && r.next == Some(NewBlock(e.used[0], k1, now, e.width)))
      && (e.next.Some? && WithoutSkill(e.available, e.next.value.skill.id) == [] && e.used == [] ==>
            r.available == [] && r.used == [] && r.next == None)
      && (e.next.None? && e.available != [] ==>
            r.current == Some(NewBlock(e.available[0], k1, now, e.width)) &&
            r.next == (if |e.available| > 1 then Some(NewBlock(e.available[1], k2, now, e.width)) else None) &&
            r.available == WithoutSkill(e.available, e.available[0].id) && r.used == e.used)
      && (e.next.None? && e.available == [] ==> r == e)
  {
  }

  /** While some skill has been placed (or another skill is still available), promoting
      a present next piece draws a new next piece: the pool cycles instead of running dry. */
  lemma PromoteKeepsNext(e: Engine, k1: nat, k2: nat, now: nat)
    requires Inv(e) && k1 < |Catalog| && k2 < |Catalog|
    requires e.next.Some? && (e.used != [] || exists s :: s in e.available && s.id != e.next.value.skill.id)
    ensures PromoteStep(e, k1, k2, now).current.Some?
    ensures PromoteStep(e, k1, k2, now).next.Some?
  {
    if e.used == [] {
      var s :| s in e.available && s.id != e.next.value.skill.id;
      assert s in WithoutSkill(e.available, e.next.value.skill.id);
    }
  }

  /** A piece that cannot go further down is placed, the current piece is cleared and
      the next piece is promoted. */
  function SettleStep(e: Engine, b: Block, k1: nat, k2: nat, now: nat): (r: Engine)
    requires Inv(e) && k1 < |Catalog| && k2 < |Catalog|
    ensures Inv(r)
  {
    var placed := PlaceStep(e, b).0;
    PromoteStep(placed.(current := None), k1, k2, now)
  }

  /** Settling a piece that fits records it under its id, appends it to the placed pieces,
      keeps the game running at the same size and promotes the next piece. */
  lemma SettleSpec(e: Engine, b: Block, k1: nat, k2: nat, now: nat)
    requires Inv(e) && Fits(e, b) && k1 < |Catalog| && k2 < |Catalog|
    ensures var r := SettleStep(e, b, k1, k2, now);
      && b.id in r.placed && r.placed[b.id] == b && r.history == e.history + [b]
      && r.isPlaying == e.isPlaying && r.width == e.width && r.height == e.height
      && (e.next.Some? ==> r.current == Some(e.next.value.(y := 0)))
      && (e.next.None? && e.available == [] ==> r.current.None?)
  {
    PlaceSpec(e, b);
    var placed := PlaceStep(e, b).0;
    PromoteSpec(placed.(current := None), k1, k2, now);
  }

  // ---------------------------------------------------------------------
  // The player's actions and the gravity timer

  /** A move left, right or down (see MoveSpec). */
  function MoveStep(e: Engine, dir: Direction, k1: nat, k2: nat, now: nat): (r: Engine)
    requires Inv(e) && k1 < |Catalog| && k2 < |Catalog|
    ensures Inv(r)
  {
    if !e.isPlaying || e.current.None? then e
    else
      var b := e.current.value;
      var m := MoveTarget(b, dir, e.width, e.height);
      if Fits(e, m) then e.(current := Some(m))
      else if dir == Down && Fits(e, b) then SettleStep(e, b, k1, k2, now)
      else e
  }

  /** Nothing happens when the game is not running or no piece is in flight. The clamped
      candidate replaces the piece if it fits; a blocked down move places the piece where
      it is (when it fits there); any other blocked move changes nothing. */
  lemma MoveSpec(e: Engine, dir: Direction, k1: nat, k2: nat, now: nat)
    requires Inv(e) && k1 < |Catalog| && k2 < |Catalog|
    ensures var r := MoveStep(e, dir, k1, k2, now);
      && (!e.isPlaying || e.current.None? ==> r == e)
      && (e.isPlaying && e.current.Some? ==>
            var b := e.current.value;
            var m := MoveTarget(b, dir, e.width, e.height);
            && (Fits(e, m) ==> r == e.(current := Some(m)))
            && (!Fits(e, m) && dir != Down ==> r == e)
            && (!Fits(e, m) && dir == Down && !Fits(e, b) ==> r == e)
            && (!Fits(e, m) && dir == Down && Fits(e, b) ==>
                  r == SettleStep(e, b, k1, k2, now)
                  && b.id in r.placed && r.placed[b.id] == b && r.history == e.history + [b]))
  {
    if e.isPlaying && e.current.Some? && Fits(e, e.current.value) {
      SettleSpec(e, e.current.value, k1, k2, now);
    }
  }

  /** A down move at the bottom edge changes nothing: the candidate is the piece itself,
      which is accepted if it fits and otherwise left alone; the piece is never placed. */
  lemma DownAtBottomIsNoOp(e: Engine, k1: nat, k2: nat, now: nat)
    requires Inv(e) && k1 < |Catalog| && k2 < |Catalog|
    requires e.isPlaying && e.current.Some?
    requires e.current.value.y + |e.current.value.shape| == e.height
    ensures MoveStep(e, Down, k1, k2, now) == e
  {
    DownAtBottomStays(e.current.value, e.width, e.height);
  }

  /** A quarter-turn clockwise in place (see RotateSpec). */
  function RotateStep(e: Engine): (r: Engine)
    requires Inv(e)
    ensures Inv(r)
  {
    if !e.isPlaying || e.current.None? then e
    else
      var b := e.current.value;
      RotateKeepsCount(b.shape);
      var turned := b.(shape := Rotate(b.shape));
      if Fits(e, turned) then e.(current := Some(turned)) else e
  }

  /** The turned piece replaces the current one when it fits; otherwise, or when the game
      is not running, nothing changes. There is no wall kick. Turning keeps the number of
      occupied cells, and four accepted turns give back the original shape. */
  lemma RotateSpec(e: Engine)
    requires Inv(e)
    ensures var r := RotateStep(e);
      && (!e.isPlaying || e.current.None? ==> r == e)
      && (e.isPlaying && e.current.Some? ==>
            var b := e.current.value;
            var turned := b.(shape := Rotate(b.shape));
            && (Fits(e, turned) ==> r == e.(current := Some(turned)))
            && (!Fits(e, turned) ==> r == e)
            && |Cells(turned.shape)| == |Cells(b.shape)|
            && Rotate(Rotate(Rotate(turned.shape))) == b.shape)
  {
    if e.isPlaying && e.current.Some? {
      RotateKeepsCount(e.current.value.shape);
      RotateFour(e.current.value.shape);
    }
  }

  /** Hard drop: the piece falls to its landing row and is placed there (see HardDropSpec). */
  function HardDropStep(e: Engine, k1: nat, k2: nat, now: nat): (r: Engine)
    requires Inv(e) && k1 < |Catalog| && k2 < |Catalog|
    ensures Inv(r)
  {
    if !e.isPlaying || e.current.None? then e
    else
      var d := Landing(e.board, e.width, e.height, e.current.value);
      if Fits(e, d) then SettleStep(e, d, k1, k2, now) else e
  }

  /** The piece is placed at its landing row (Landing states where that is) when it fits
      there; a piece that already overlaps does not move and nothing changes. */
  lemma HardDropSpec(e: Engine, k1: nat, k2: nat, now: nat)
    requires Inv(e) && k1 < |Catalog| && k2 < |Catalog|
    ensures var r := HardDropStep(e, k1, k2, now);
      && (!e.isPlaying || e.current.None? ==> r == e)
      && (e.isPlaying && e.current.Some? ==>
            var d := Landing(e.board, e.width, e.height, e.current.value);
            && (Fits(e, d) ==> r == SettleStep(e, d, k1, k2, now) && d.id in r.placed && r.placed[d.id] == d && r.history == e.history + [d])
            && (!Fits(e, d) ==> r == e))
  {
    if e.isPlaying && e.current.Some? {
      var d := Landing(e.board, e.width, e.height, e.current.value);
      if Fits(e, d) {
        SettleSpec(e, d, k1, k2, now);
      }
    }
  }

  /** One tick of the gravity timer (see GravitySpec). */
  function GravityStep(e: Engine, k1: nat, k2: nat, now: nat): (r: Engine)
    requires Inv(e) && k1 < |Catalog| && k2 < |Catalog|
    ensures Inv(r)
  {
    if !e.isPlaying || e.current.None? then e
    else
      var b := e.current.value;
      var below := b.(y := b.y + 1);
      if Fits(e, below) then e.(current := Some(below))
      else if Fits(e, b) then SettleStep(e, b, k1, k2, now)
      else e.(current := None)
  }

  /** The piece moves down one row, without clamping, when that fits; otherwise it is
      placed where it is and the next piece promoted, or, if it does not fit where it is
      either, it is dropped from play. */
  lemma GravitySpec(e: Engine, k1: nat, k2: nat, now: nat)
    requires Inv(e) && k1 < |Catalog| && k2 < |Catalog|
    ensures var r := GravityStep(e, k1, k2, now);
      && (!e.isPlaying || e.current.None? ==> r == e)
      && (e.isPlaying && e.current.Some? ==>
            var b := e.current.value;
            var below := b.(y := b.y + 1);
            && (Fits(e, below) ==> r == e.(current := Some(below)))
            && (!Fits(e, below) && Fits(e, b) ==>
                  r == SettleStep(e, b, k1, k2, now) && b.id in r.placed && r.placed[b.id] == b && r.history == e.history + [b])
            && (!Fits(e, below) && !Fits(e, b) ==> r == e.(current := None)))
  {
    if e.isPlaying && e.current.Some? && Fits(e, e.current.value) {
      SettleSpec(e, e.current.value, k1, k2, now);
    }
  }

  // ---------------------------------------------------------------------
  // Start, reset and resize

  /** A catalog piece spawned on an empty board of at least 20 x 18 cells fits. */
  lemma SpawnFits(skill: Skill, k: nat, now: nat, width: int, height: int)
    requires k < |Catalog| && width >= 20 && height >= 18
    ensures FitsOn(EmptyGrid(width, height), width, height, NewBlock(skill, k, now, width))
  {
    CatalogShapes();
    var b := NewBlock(skill, k, now, width);
    var g := EmptyGrid(width, height);
    forall j, i | 0 <= j < |b.shape| && 0 <= i < |b.shape[j]|
      ensures CellFree(g, width, height, b, j, i)
    {
      assert |b.shape[j]| == |b.shape[0]|;
    }
  }

  /** Starting a game (see StartSpec). */
  function StartStep(e: Engine, skills: seq<Skill>, k1: nat, k2: nat, now: nat): (r: Engine)
    requires Inv(e) && |skills| >= 2 && k1 < |Catalog| && k2 < |Catalog|
    ensures Inv(r)
  {
    e.(isPlaying := true, placed := map[], board := EmptyGrid(e.width, e.height), available := skills,
       current := Some(NewBlock(skills[0], k1, now, e.width)),
       next := Some(NewBlock(skills[1], k2, now, e.width)),
       history := [], synced := true)
  }

  /** Starting: playing, no placed pieces, an empty board of the current size, all skills
      available, and the first two skills spawned as current and next piece, each centred
      in row 0, inside the board and fitting. The used skills are kept as they were. */
  lemma StartSpec(e: Engine, skills: seq<Skill>, k1: nat, k2: nat, now: nat)
    requires Inv(e) && |skills| >= 2 && k1 < |Catalog| && k2 < |Catalog|
    ensures var r := StartStep(e, skills, k1, k2, now);
      && r.isPlaying && r.placed == map[] && r.available == skills && r.used == e.used
      && r.width == e.width && r.height == e.height
      && (forall row, col :: 0 <= row < r.height && 0 <= col < r.width ==> r.board[row][col] == 0)
      && r.current == Some(NewBlock(skills[0], k1, now, e.width))
      && r.next == Some(NewBlock(skills[1], k2, now, e.width))
      && Fits(r, r.current.value) && Fits(r, r.next.value)
      && 0 <= r.current.value.x && r.current.value.x + |r.current.value.shape[0]| <= r.width
  {
    CatalogShapes();
    SpawnFits(skills[0], k1, now, e.width, e.height);
    SpawnFits(skills[1], k2, now, e.width, e.height);
  }

  /** A start makes every skill available and removes none of the two it draws, so the
      first promotion, which filters out only the next piece's skill, draws the first
      skill again as the new next piece. */
  lemma FirstSkillDrawnTwice(e: Engine, skills: seq<Skill>, k1: nat, k2: nat, now: nat,
                             j1: nat, j2: nat, later: nat)
    requires Inv(e) && |skills| >= 2 && k1 < |Catalog| && k2 < |Catalog|
    requires j1 < |Catalog| && j2 < |Catalog| && skills[0].id != skills[1].id
    ensures var s := StartStep(e, skills, k1, k2, now);
      && s.current.value.skill == skills[0] && Fits(s, s.current.value)
      && SettleStep(s, s.current.value, j1, j2, later).next == Some(NewBlock(skills[0], j1, later, e.width))
  {
    StartSpec(e, skills, k1, k2, now);
    var s := StartStep(e, skills, k1, k2, now);
    var b := s.current.value;
    PlaceSpec(s, b);
    var placed := PlaceStep(s, b).0.(current := None);
    assert placed.available == skills && placed.next == s.next && placed.width == e.width;
    assert WithoutSkill(skills, skills[1].id) == [skills[0]] + WithoutSkill(skills[1..], skills[1].id);
    PromoteSpec(placed, j1, j2, later);
  }

  /** Resetting: idle, no pieces in flight or placed, an empty board of the current size,
      all skills available and none used. */
  function ResetStep(e: Engine, skills: seq<Skill>): (r: Engine)
    requires Inv(e)
    ensures Inv(r)
    ensures !r.isPlaying && r.current.None? && r.next.None? && r.placed == map[]
    ensures r.available == skills && r.used == [] && r.width == e.width && r.height == e.height
    ensures forall row, col :: 0 <= row < r.height && 0 <= col < r.width ==> r.board[row][col] == 0
  {
    e.(isPlaying := false, placed := map[], board := EmptyGrid(e.width, e.height), available := skills,
       used := [], current := None, next := None, history := [], synced := true)
  }

  /** Resizing to a drawing area of `pw` x `ph` pixels (see ResizeSpec). */
  function ResizeStep(e: Engine, pw: int, ph: int): (r: Engine)
    requires Inv(e)
    ensures Inv(r)
  {
    var d := BoardDimensions(pw, ph);
    if d.0 != e.width || d.1 != e.height then
      e.(width := d.0, height := d.1, board := EmptyGrid(d.0, d.1), synced := false)
    else e
  }

  /** The board takes the size derived from the drawing area and is cleared, but only when
      that size differs from the current one. Placed pieces are kept. */
  lemma ResizeSpec(e: Engine, pw: int, ph: int)
    requires Inv(e)
    ensures var r := ResizeStep(e, pw, ph);
      && (r.width, r.height) == BoardDimensions(pw, ph)
      && ((e.width, e.height) == BoardDimensions(pw, ph) ==> r == e)
      && ((e.width, e.height) != BoardDimensions(pw, ph) ==>
            r == e.(width := r.width, height := r.height, board := EmptyGrid(r.width, r.height), synced := false))
  {
  }

  /** Resizing twice to the same drawing area changes nothing the second time. */
  lemma ResizeIdempotent(e: Engine, pw: int, ph: int)
    requires Inv(e)
    ensures ResizeStep(ResizeStep(e, pw, ph), pw, ph) == ResizeStep(e, pw, ph)
  {
  }

  // ---------------------------------------------------------------------
  // The board agrees with the placed pieces

  lemma PlaceKeepsConsistent(e: Engine, b: Block)
    requires Inv(e) && Consistent(e)
    ensures Consistent(PlaceStep(e, b).0)
  {
    if Fits(e, b) {
      var r := Placed(e, b);
      assert PlaceStep(e, b).0 == r;
      assert r.history[..|r.history| - 1] == e.history;
      assert r.placed == Index(r.history);
    }
  }

  lemma SettleKeepsConsistent(e: Engine, b: Block, k1: nat, k2: nat, now: nat)
    requires Inv(e) && Consistent(e) && k1 < |Catalog| && k2 < |Catalog|
    ensures Consistent(SettleStep(e, b, k1, k2, now))
  {
    PlaceKeepsConsistent(e, b);
    PromoteSpec(PlaceStep(e, b).0.(current := None), k1, k2, now);
  }

  /** Moves keep the board equal to the placed pieces painted onto an empty board. */
  lemma MoveKeepsConsistent(e: Engine, dir: Direction, k1: nat, k2: nat, now: nat)
    requires Inv(e) && Consistent(e) && k1 < |Catalog| && k2 < |Catalog|
    ensures Consistent(MoveStep(e, dir, k1, k2, now))
  {
    if e.isPlaying && e.current.Some? {
      SettleKeepsConsistent(e, e.current.value, k1, k2, now);
    }
  }

  /** So do rotations. */
  lemma RotateKeepsConsistent(e: Engine)
    requires Inv(e) && Consistent(e)
    ensures Consistent(RotateStep(e))
  {
  }

  /** So do hard drops. */
  lemma HardDropKeepsConsistent(e: Engine, k1: nat, k2: nat, now: nat)
    requires Inv(e) && Consistent(e) && k1 < |Catalog| && k2 < |Catalog|
    ensures Consistent(HardDropStep(e, k1, k2, now))
  {
    if e.isPlaying && e.current.Some? {
      SettleKeepsConsistent(e, Landing(e.board, e.width, e.height, e.current.value), k1, k2, now);
    }
  }

  /** So do gravity ticks. */
  lemma GravityKeepsConsistent(e: Engine, k1: nat, k2: nat, now: nat)
    requires Inv(e) && Consistent(e) && k1 < |Catalog| && k2 < |Catalog|
    ensures Consistent(GravityStep(e, k1, k2, now))
  {
    if e.isPlaying && e.current.Some? {
      var b := e.current.value;
      var below := b.(y := b.y + 1);
      if Fits(e, below) {
        assert GravityStep(e, k1, k2, now) == e.(current := Some(below));
      } else if Fits(e, b) {
        SettleKeepsConsistent(e, b, k1, k2, now);
        assert GravityStep(e, k1, k2, now) == SettleStep(e, b, k1, k2, now);
      } else {
        assert GravityStep(e, k1, k2, now) == e.(current := None);
      }
    }
  }


  /** Start and reset make the board consistent again; a resize that changes the size
      clears the board and marks it as no longer consistent with the placed pieces. */
  lemma LifecycleKeepsConsistent(e: Engine, skills: seq<Skill>, k1: nat, k2: nat, now: nat, pw: int, ph: int)
    requires Inv(e) && Consistent(e)
    ensures Consistent(Initial(skills))
    ensures |skills| >= 2 && k1 < |Catalog| && k2 < |Catalog| ==>
      Consistent(StartStep(e, skills, k1, k2, now)) && StartStep(e, skills, k1, k2, now).synced
    ensures Consistent(ResetStep(e, skills)) && ResetStep(e, skills).synced
    ensures Consistent(ResizeStep(e, pw, ph))
    ensures ResizeStep(e, pw, ph).synced <==> e.synced && (e.width, e.height) == BoardDimensions(pw, ph)
  {
  }

  /** Until a resize, a board cell is occupied exactly when a placed piece covers it,
      and every piece in the placed map lies on occupied cells. */
  lemma BoardIsPlacedPieces(e: Engine, row: int, col: int)
    requires Inv(e) && Consistent(e) && e.synced
    requires 0 <= row < e.height && 0 <= col < e.width
    ensures e.board[row][col] != 0 <==> exists k :: 0 <= k < |e.history| && Covers(e.history[k], row, col)
    ensures forall id :: id in e.placed && Covers(e.placed[id], row, col) ==> e.board[row][col] != 0
  {
    PaintedIffCovered(e.width, e.height, e.history, row, col);
    forall id | id in e.placed && Covers(e.placed[id], row, col)
      ensures e.board[row][col] != 0
    {
      var b := e.placed[id];
      var k :| 0 <= k < |e.history| && e.history[k] == b;
      assert Covers(e.history[k], row, col);
    }
  }
}
