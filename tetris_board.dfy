/** The value-level rules of the falling-block engine: pieces, spawning, the
    occupancy grid and the collision test, placement, hard-drop landing,
    clamped moves, board sizing and the skill pool. */
module TetrisBoard {
  import opened TetrisShapes

  datatype Option<T> = None | Some(value: T)

  /** A skill record as the caller supplies it; its icon component is only rendered. */
  datatype Skill = Skill(id: string, name: string, category: string, color: string)

  /** A piece: its shape snapshot, the skill it carries and the board position
      of the top-left corner of its shape matrix. */
  datatype Block = Block(id: string, shape: Shape, color: string, skill: Skill, x: int, y: int)

  /** Pixel size of one board cell. */
  const BlockSize: int := 30

  /** The decimal rendering of a timestamp, as a template string prints it:
      digits only, with no leading zero. */
  function Decimal(n: nat): (s: string)
    ensures |s| >= 1 && (|s| > 1 ==> s[0] != '0')
    ensures forall i :: 0 <= i < |s| ==> '0' <= s[i] <= '9'
  {
    if n < 10 then [(n + '0' as int) as char]
    else Decimal(n / 10) + [((n % 10) + '0' as int) as char]
  }

  /** The number a string of decimal digits denotes. */
  function DigitsValue(s: string): nat
    requires forall i :: 0 <= i < |s| ==> '0' <= s[i] <= '9'
  {
    if s == [] then 0 else 10 * DigitsValue(s[..|s| - 1]) + (s[|s| - 1] as int - '0' as int)
  }

  /** Reading the rendered digits back gives the timestamp. */
  lemma {:induction false} DecimalRoundTrip(n: nat)
    ensures DigitsValue(Decimal(n)) == n
  {
    if n >= 10 {
      var s := Decimal(n);
      DecimalRoundTrip(n / 10);
      assert s[..|s| - 1] == Decimal(n / 10);
    }
  }

  /** A new piece for `skill` with catalog shape `k` (the random choice) and
      timestamp `now`, horizontally centred on a board `width` cells wide, in row 0. */
  function NewBlock(skill: Skill, k: nat, now: nat, width: int): (b: Block)
    requires k < |Catalog|
    ensures b.shape == Catalog[k] && IsPiece(b.shape) && |b.shape| <= 4 && |b.shape[0]| <= 4
    ensures b.skill == skill && b.color == skill.color && b.y == 0
    ensures b.id == skill.id + "-" + Decimal(now)
    ensures b.x + |b.shape[0]| / 2 == width / 2
    ensures |b.shape[0]| <= width ==> 0 <= b.x && b.x + |b.shape[0]| <= width
  {
    CatalogShapes();
    var shape := Catalog[k];
    Block(skill.id + "-" + Decimal(now), shape, skill.color, skill, width / 2 - |shape[0]| / 2, 0)
  }

  // ---------------------------------------------------------------------
  // The occupancy grid

  /** Rows of 0/1 occupancy flags; `g[r][c]` is row r, column c. */
  type Grid = seq<seq<int>>

  predicate IsGrid(g: Grid, width: int, height: int) {
    |g| == height && forall r :: 0 <= r < height ==> |g[r]| == width
  }

  function EmptyGrid(width: nat, height: nat): (g: Grid)
    ensures IsGrid(g, width, height)
    ensures forall r, c :: 0 <= r < height && 0 <= c < width ==> g[r][c] == 0
  {
    seq(height, r => seq(width, c => 0))
  }

  /** Shape cell (j, i) of `b`, if occupied, lies inside the board and on a free cell. */
  predicate CellFree(g: Grid, width: int, height: int, b: Block, j: int, i: int)
    requires IsGrid(g, width, height)
    requires 0 <= j < |b.shape| && 0 <= i < |b.shape[j]|
  {
    b.shape[j][i] != 0 ==>
      0 <= b.x + i < width && 0 <= b.y + j < height && g[b.y + j][b.x + i] == 0
  }

  /** The collision test: every occupied cell of the piece is inside the board and free.
      A single violating cell rejects the whole piece. */
  predicate FitsOn(g: Grid, width: int, height: int, b: Block)
    requires IsGrid(g, width, height)
  {
    forall j, i :: 0 <= j < |b.shape| && 0 <= i < |b.shape[j]| ==> CellFree(g, width, height, b, j, i)
  }

  /** Board cell (r, c) lies under an occupied cell of the piece. */
  predicate Covers(b: Block, r: int, c: int) {
    0 <= r - b.y < |b.shape| && 0 <= c - b.x < |b.shape[r - b.y]| && b.shape[r - b.y][c - b.x] != 0
  }

  /** A block fits exactly when every board cell it covers lies inside the board and is free. */
  lemma FitsOnCovers(g: Grid, width: int, height: int, b: Block)
    requires IsGrid(g, width, height)
    ensures FitsOn(g, width, height, b) <==>
      forall r, c :: Covers(b, r, c) ==> 0 <= r < height && 0 <= c < width && g[r][c] == 0
  {
    if FitsOn(g, width, height, b) {
      forall r, c | Covers(b, r, c) ensures 0 <= r < height && 0 <= c < width && g[r][c] == 0 {
        assert CellFree(g, width, height, b, r - b.y, c - b.x);
      }
    }
    if forall r, c :: Covers(b, r, c) ==> 0 <= r < height && 0 <= c < width && g[r][c] == 0 {
      forall j, i | 0 <= j < |b.shape| && 0 <= i < |b.shape[j]| ensures CellFree(g, width, height, b, j, i) {
        if b.shape[j][i] != 0 {
          assert Covers(b, b.y + j, b.x + i);
        }
      }
    }
  }

  /** The board after placing `b`: the cells it covers become 1, the others keep their value. */
  function Stamp(g: Grid, width: nat, height: nat, b: Block): (g': Grid)
    requires IsGrid(g, width, height)
    ensures IsGrid(g', width, height)
    ensures forall r, c :: 0 <= r < height && 0 <= c < width ==>
      g'[r][c] == if Covers(b, r, c) then 1 else g[r][c]
  {
    seq(height, r requires 0 <= r < height =>
      seq(width, c requires 0 <= c < width => if Covers(b, r, c) then 1 else g[r][c]))
  }

  /** A piece that fits is no longer placeable at the same spot once it has been placed. */
  lemma StampBlocksItself(g: Grid, width: nat, height: nat, b: Block)
    requires IsGrid(g, width, height) && Occupied(b.shape)
    requires FitsOn(g, width, height, b)
    ensures !FitsOn(Stamp(g, width, height, b), width, height, b)
  {
    var j, i :| 0 <= j < |b.shape| && 0 <= i < |b.shape[j]| && b.shape[j][i] != 0;
    assert CellFree(g, width, height, b, j, i);
    assert Covers(b, b.y + j, b.x + i);
    assert !CellFree(Stamp(g, width, height, b), width, height, b, j, i);
  }

  /** The board obtained by placing the pieces of `bs` one after another. */
  function PaintAll(g: Grid, width: nat, height: nat, bs: seq<Block>): (g': Grid)
    requires IsGrid(g, width, height)
    ensures IsGrid(g', width, height)
  {
    if bs == [] then g
    else Stamp(PaintAll(g, width, height, bs[..|bs| - 1]), width, height, bs[|bs| - 1])
  }

  /** A cell of a board painted from empty is occupied exactly when some placed piece covers it. */
  lemma {:induction false} PaintedIffCovered(width: nat, height: nat, bs: seq<Block>, r: int, c: int)
    requires 0 <= r < height && 0 <= c < width
    ensures PaintAll(EmptyGrid(width, height), width, height, bs)[r][c] != 0
      <==> exists k :: 0 <= k < |bs| && Covers(bs[k], r, c)
  {
    if bs != [] {
      var front := bs[..|bs| - 1];
      PaintedIffCovered(width, height, front, r, c);
      if exists k :: 0 <= k < |front| && Covers(front[k], r, c) {
        var k :| 0 <= k < |front| && Covers(front[k], r, c);
        assert bs[k] == front[k];
      }
      if exists k :: 0 <= k < |bs| && Covers(bs[k], r, c) {
        var k :| 0 <= k < |bs| && Covers(bs[k], r, c);
        if k < |front| {
          assert front[k] == bs[k];
        }
      }
    }
  }

  /** The occupied cells of a piece that fits are all above row `height`. */
  lemma FitsIsAboveFloor(g: Grid, width: int, height: int, b: Block)
    requires IsGrid(g, width, height) && Occupied(b.shape)
    requires FitsOn(g, width, height, b)
    ensures b.y < height
  {
    var j, i :| 0 <= j < |b.shape| && 0 <= i < |b.shape[j]| && b.shape[j][i] != 0;
    assert CellFree(g, width, height, b, j, i);
  }

  /** Hard drop: the piece moved down one row at a time while the next row still fits. */
  function Landing(g: Grid, width: int, height: int, b: Block): (d: Block)
    requires IsGrid(g, width, height) && Occupied(b.shape)
    ensures d == b.(y := d.y) && d.y >= b.y
    decreases height - b.y
  {
    var below := b.(y := b.y + 1);
    if FitsOn(g, width, height, below) then
      FitsIsAboveFloor(g, width, height, below);
      Landing(g, width, height, below)
    else b
  }

  /** The landing row is the first row whose next row does not fit, every row passed on
      the way fits, and so does the landing row itself when the piece moved at all. */
  lemma {:induction false} LandingSpec(g: Grid, width: int, height: int, b: Block)
    requires IsGrid(g, width, height) && Occupied(b.shape)
    ensures var d := Landing(g, width, height, b);
      && !FitsOn(g, width, height, d.(y := d.y + 1))
      && (d.y > b.y ==> FitsOn(g, width, height, d))
      && (forall y :: b.y < y <= d.y ==> FitsOn(g, width, height, b.(y := y)))
    decreases height - b.y
  {
    var below := b.(y := b.y + 1);
    if FitsOn(g, width, height, below) {
      FitsIsAboveFloor(g, width, height, below);
      LandingSpec(g, width, height, below);
      var d := Landing(g, width, height, b);
      forall y | b.y < y <= d.y ensures FitsOn(g, width, height, b.(y := y)) {
        if y > below.y {
          assert b.(y := y) == below.(y := y);
        }
      }
    }
  }

  // ---------------------------------------------------------------------
  // Moves

  datatype Direction = Left | Right | Down

  /** The candidate of a move: one cell in the given direction, clamped so that the
      shape's bounding box does not cross the left, right or bottom edge. */
  function MoveTarget(b: Block, dir: Direction, width: int, height: int): (m: Block)
    requires |b.shape| >= 1
    ensures dir == Left ==> m == b.(x := m.x) && 0 <= m.x && (b.x >= 1 ==> m.x == b.x - 1) && (b.x < 1 ==> m.x == 0)
    ensures dir == Right ==> (m == b.(x := m.x) && m.x + |b.shape[0]| <= width &&
      (b.x + 1 + |b.shape[0]| <= width ==> m.x == b.x + 1) &&
      (b.x + 1 + |b.shape[0]| > width ==> m.x + |b.shape[0]| == width))
    ensures dir == Down ==> (m == b.(y := m.y) && m.y + |b.shape| <= height &&
      (b.y + 1 + |b.shape| <= height ==> m.y == b.y + 1) &&
      (b.y + 1 + |b.shape| > height ==> m.y + |b.shape| == height))
  {
    match dir
    case Left => b.(x := if 0 < b.x - 1 then b.x - 1 else 0)
    case Right =>
      var maxRight := width - |b.shape[0]|;
      b.(x := if maxRight < b.x + 1 then maxRight else b.x + 1)
    case Down =>
      var maxDown := height - |b.shape|;
      b.(y := if maxDown < b.y + 1 then maxDown else b.y + 1)
  }

  /** A down move from the bottom edge yields the piece itself. */
  lemma DownAtBottomStays(b: Block, width: int, height: int)
    requires |b.shape| >= 1 && b.y + |b.shape| == height
    ensures MoveTarget(b, Down, width, height) == b
  {
  }

  // ---------------------------------------------------------------------
  // Board sizing

  /** The board size in cells for a drawing area of `width` x `height` pixels:
      as many whole cells as fit across, and as fit in the height left after 200
      pixels reserved for the controls, but never fewer than 20 x 18. */
  function BoardDimensions(width: int, height: int): (d: (int, int))
    ensures d.0 >= 20 && d.1 >= 18
    ensures d.0 > 20 ==> BlockSize * d.0 <= width < BlockSize * (d.0 + 1)
    ensures d.0 == 20 ==> width < BlockSize * 21
    ensures d.1 > 18 ==> BlockSize * d.1 <= height - 200 < BlockSize * (d.1 + 1)
    ensures d.1 == 18 ==> height - 200 < BlockSize * 19
  {
    var maxWidth := width / BlockSize;
    var maxHeight := (height - 200) / BlockSize;
    (if maxWidth > 20 then maxWidth else 20, if maxHeight > 18 then maxHeight else 18)
  }

  // ---------------------------------------------------------------------
  // The skill pool

  /** The skills whose id differs from `id`, in their original order. */
  function WithoutSkill(skills: seq<Skill>, id: string): (r: seq<Skill>)
    ensures |r| <= |skills|
    ensures forall s :: s in r <==> s in skills && s.id != id
  {
    if skills == [] then []
    else if skills[0].id == id then WithoutSkill(skills[1..], id)
    else [skills[0]] + WithoutSkill(skills[1..], id)
  }

  /** The filter keeps order: its first element is the first skill whose id differs. */
  lemma {:induction false} WithoutSkillFirst(skills: seq<Skill>, id: string)
    ensures var r := WithoutSkill(skills, id);
      r != [] ==> exists k :: 0 <= k < |skills| && r[0] == skills[k] && skills[k].id != id
                    && forall k' :: 0 <= k' < k ==> skills[k'].id == id
  {
    if skills != [] && skills[0].id == id {
      var tail := skills[1..];
      var rest := WithoutSkill(tail, id);
      WithoutSkillFirst(tail, id);
      if rest != [] {
        var k :| 0 <= k < |tail| && rest[0] == tail[k] && tail[k].id != id
                 && forall k' :: 0 <= k' < k ==> tail[k'].id == id;
        assert skills[k + 1] == tail[k];
        forall k' | 0 <= k' < k + 1 ensures skills[k'].id == id {
          if k' > 0 {
            assert skills[k'] == tail[k' - 1];
          }
        }
      }
    }
  }

  /** The filter keeps repetitions: every skill occurs as often as before, or not at all if its id matches. */
  lemma {:induction false} WithoutSkillCounts(skills: seq<Skill>, id: string)
    ensures forall s :: multiset(WithoutSkill(skills, id))[s] == if s.id == id then 0 else multiset(skills)[s]
  {
    if skills != [] {
      var tail := skills[1..];
      var rest := WithoutSkill(tail, id);
      WithoutSkillCounts(tail, id);
      assert skills == [skills[0]] + tail;
      assert multiset(skills) == multiset{skills[0]} + multiset(tail);
      if skills[0].id != id {
        assert multiset([skills[0]] + rest) == multiset{skills[0]} + multiset(rest);
      }
    }
  }

  // ---------------------------------------------------------------------
  // The placed-pieces map

  /** The map from piece id to piece after recording the pieces of `bs` in order;
      a later piece with the same id replaces an earlier one. */
  function Index(bs: seq<Block>): (m: map<string, Block>)
    ensures forall id :: id in m ==> m[id] in bs && m[id].id == id
    ensures forall k :: 0 <= k < |bs| ==> bs[k].id in m
    ensures bs != [] ==> m[bs[|bs| - 1].id] == bs[|bs| - 1]
  {
    if bs == [] then map[]
    else Index(bs[..|bs| - 1])[bs[|bs| - 1].id := bs[|bs| - 1]]
  }

  /** bs[k] is the last block in bs with its id. */
  predicate LastWithId(bs: seq<Block>, k: int)
  {
    0 <= k < |bs| && forall k' :: k < k' < |bs| ==> bs[k'].id != bs[k].id
  }

  /** The position of the block stored under `id`: the last block in bs with that id. */
  lemma {:induction false} IndexLastPosition(bs: seq<Block>, id: string) returns (k: int)
    requires id in Index(bs)
    ensures LastWithId(bs, k) && Index(bs)[id] == bs[k]
  {
    var n := |bs| - 1;
    var front, last := bs[..n], bs[n];
    var m := Index(front);
    assert Index(bs) == m[last.id := last];
    if last.id == id {
      k := n;
    } else {
      assert Index(bs)[id] == m[id];
      k := IndexLastPosition(front, id);
      LastWithIdExtend(bs, k);
    }
  }

  /** If bs[k] is last with its id before the final block, and the final block's id differs, it is last in bs. */
  lemma LastWithIdExtend(bs: seq<Block>, k: int)
    requires bs != [] && LastWithId(bs[..|bs| - 1], k) && bs[|bs| - 1].id != bs[k].id
    ensures LastWithId(bs, k) && bs[..|bs| - 1][k] == bs[k]
  {
    forall k' | k < k' < |bs| - 1 ensures bs[k'].id != bs[k].id {
      assert bs[k'] == bs[..|bs| - 1][k'];
    }
  }

  /** A repeated id keeps the block recorded last: each entry is the last block with its id. */
  lemma IndexKeepsLast(bs: seq<Block>, id: string)
    requires id in Index(bs)
    ensures exists k :: LastWithId(bs, k) && Index(bs)[id] == bs[k]
  {
    var k := IndexLastPosition(bs, id);
  }
}
