# Skill-block game, block labels and typewriter banner — a Dafny model

This project models the three pieces of stateful or string logic in a personal
portfolio site:

- **The falling-block skills game** (`src/hooks/useTetrisGame.ts`). Each skill
  of the site becomes a tetromino-shaped block. Blocks fall on a grid of
  `boardHeight × boardWidth` occupancy flags. The player moves, rotates and
  hard-drops them, and a gravity timer lowers them one row per tick. A block
  that can go no further is placed: its cells are written into the board, it
  is recorded under its id and its skill joins the used skills. Then the next
  block is promoted from a pool of available skills, and the pool cycles back
  to the used skills when it runs dry. The board size follows the size of
  the drawing area.
  - `tetris_shapes.dfy` (module `TetrisShapes`) holds the seven shapes and
    the clockwise quarter-turn with its laws.
  - `tetris_board.dfy` (module `TetrisBoard`) holds the value-level rules:
    spawning, the collision test, placing, the hard-drop landing row, clamped
    moves, board sizing, the skill filter and the placed-pieces map.
  - `tetris_rules.dfy` (module `TetrisRules`) writes every action of the
    hook as a step function on the whole engine state. It proves what each
    step does and that each step keeps the board equal to the placed pieces
    until the next resize.
  - `tetris_game.dfy` (module `TetrisGame`) is the engine as a class. Its
    fields are updated in place and the board is an `array2<int>`. Each
    action is one atomic method, proved to perform the matching step
    function. The collision test and the hard-drop descent are loops proved
    against the value-level definitions.
- **Block labels** (`src/components/game/TetrisBlock.tsx`,
  `tetris_block_label.dfy`, module `TetrisBlockLabel`). A skill name is
  meant to be shortened to a label of at most two characters (see
  "## Findings" for the case where it is not). The font size and the
  corner radius are chosen from the block size.
- **The typewriter banner** (`src/components/common/TypewriterProvider.tsx`,
  `typewriter.dfy`, module `Typewriter`). Three phrases are typed, held,
  erased and cycled one character per timer tick.

The random shape choice (`k1`, `k2`, an index into the seven shapes) and the
timestamp used in block ids (`now`) are parameters of the actions that draw
new blocks.

## Model

| member | source | states |
|---|---|---|
| TetrisShapes.CatalogShapes | src/hooks/useTetrisGame.ts:21-42 | there are seven shapes, each a non-empty rectangular matrix with an occupied cell, at most 4 × 4 |
| TetrisShapes.Rotate | src/hooks/useTetrisGame.ts:203-205 | the turned shape of an h × w matrix is a w × h matrix with `rotated[i][j] == shape[h-1-j][i]` |
| TetrisShapes.RotateTwice | src/hooks/useTetrisGame.ts:203-205 | two turns read the shape backwards in both directions |
| TetrisShapes.RotateFour | src/hooks/useTetrisGame.ts:203-205 | four turns give back the original shape for every rectangular shape |
| TetrisShapes.RotateCells | src/hooks/useTetrisGame.ts:203-205 | the occupied cells of the turned shape are exactly the images of the occupied cells under (j, i) ↦ (i, h-1-j) |
| TetrisShapes.TurnKeepsCount | src/hooks/useTetrisGame.ts:203-205 | that cell map is injective, so it keeps the size of any finite set of cells |
| TetrisShapes.RotateKeepsCount | src/hooks/useTetrisGame.ts:203-205 | a turn keeps the number of occupied cells, and keeps a piece a piece |
| TetrisShapes.OccupiedIffCells | src/hooks/useTetrisGame.ts:76 | a shape has an occupied cell exactly when its set of occupied cells is non-empty |
| TetrisBoard.Decimal | src/hooks/useTetrisGame.ts:64 | the timestamp in a block id is printed as decimal digits with no leading zero |
| TetrisBoard.DecimalRoundTrip | src/hooks/useTetrisGame.ts:64 | reading those digits back gives the timestamp, so distinct timestamps print differently |
| TetrisBoard.NewBlock | src/hooks/useTetrisGame.ts:61-71 | a new block carries the chosen catalog shape, the skill and its colour, the id `skill.id + "-" + now`, row 0, and the column `⌊W/2⌋ − ⌊sw/2⌋`; that column keeps the shape inside the board whenever `sw ≤ W` |
| TetrisBoard.EmptyGrid | src/hooks/useTetrisGame.ts:255 | an `H × W` grid of zeros |
| TetrisBoard.Stamp | src/hooks/useTetrisGame.ts:99-106 | placing sets exactly the cells under occupied shape cells to 1 and leaves every other cell as it was |
| TetrisBoard.StampBlocksItself | src/hooks/useTetrisGame.ts:95-106 | a placed block no longer fits at its own position |
| TetrisBoard.PaintAll | src/hooks/useTetrisGame.ts:95-119 | painting a list of blocks keeps the grid's dimensions |
| TetrisBoard.PaintedIffCovered | src/hooks/useTetrisGame.ts:95-119 | on a board painted from empty, a cell is occupied exactly when some placed block covers it |
| TetrisBoard.FitsIsAboveFloor | src/hooks/useTetrisGame.ts:81-83 | a block that fits has its top row above the floor, which bounds the hard-drop loop |
| TetrisBoard.FitsOnCovers | src/hooks/useTetrisGame.ts:73-93 | a block fits exactly when every board cell it covers lies inside the board and holds 0 |
| TetrisBoard.Landing | src/hooks/useTetrisGame.ts:236-240 | the hard drop only changes the row, and never moves up |
| TetrisBoard.LandingSpec | src/hooks/useTetrisGame.ts:236-240 | at the landing row the next row does not fit; every row passed on the way fits, and so does the landing row when the block moved |
| TetrisBoard.MoveTarget | src/hooks/useTetrisGame.ts:172-185 | left clamps at `x ≥ 0`; right clamps at `x ≤ W − shape[0].length`; down clamps at `y ≤ H − shape.length`; otherwise the block moves one cell; nothing else changes |
| TetrisBoard.DownAtBottomStays | src/hooks/useTetrisGame.ts:182-184 | a down move at the bottom edge yields the block itself |
| TetrisBoard.BoardDimensions | src/hooks/useTetrisGame.ts:341-348 | width `max(⌊w/30⌋, 20)` and height `max(⌊(h−200)/30⌋, 18)`, stated as floor bounds, so the board is always at least 20 × 18 |
| TetrisBoard.WithoutSkill | src/hooks/useTetrisGame.ts:130 | the filter keeps exactly the skills whose id differs, and never grows the list |
| TetrisBoard.WithoutSkillFirst | src/hooks/useTetrisGame.ts:130-132 | the filter keeps order: its first element, the skill drawn next, is the first skill in the pool whose id differs |
| TetrisBoard.WithoutSkillCounts | src/hooks/useTetrisGame.ts:130 | the filter keeps repetitions: a skill whose id differs occurs as often as before, a skill whose id matches not at all |
| TetrisBoard.Index | src/hooks/useTetrisGame.ts:110-113 | every recorded id is a key, mapped to a recorded block with that id, and the block recorded last is stored under its id |
| TetrisBoard.IndexKeepsLast | src/hooks/useTetrisGame.ts:110-113 | when an id repeats, the map keeps the block recorded last with that id, as the spread-then-overwrite does |
| TetrisRules.Initial | src/hooks/useTetrisGame.ts:47-59 | the hook starts idle, with no blocks, all skills available, none used and an empty 30 × 18 board |
| TetrisRules.PlaceStep | src/hooks/useTetrisGame.ts:95-119 | placing keeps the state well formed: board of the recorded size, rectangular pieces with an occupied cell (the effect is stated by PlaceSpec) |
| TetrisRules.PlaceSpec | src/hooks/useTetrisGame.ts:95-119 | placing succeeds exactly when the block fits; a refused placement changes nothing; a placement records the block under its id, appends its skill to the used skills and changes nothing else but the board |
| TetrisRules.PlaceCells | src/hooks/useTetrisGame.ts:99-106 | a placement sets exactly the covered cells to 1, and the block no longer fits where it was placed |
| TetrisRules.PromoteStep | src/hooks/useTetrisGame.ts:122-167 | promotion keeps the state well formed (the effect is stated by PromoteSpec) |
| TetrisRules.PromoteSpec | src/hooks/useTetrisGame.ts:122-167 | the next block becomes current in row 0 and its skill leaves the pool; the new next block uses the first remaining skill; if none remain, the used skills are cycled back and used is cleared; if none were used, there is no next block; without a next block the first two available skills are drawn; the board and placed blocks are untouched |
| TetrisRules.PromoteKeepsNext | src/hooks/useTetrisGame.ts:129-144 | while some skill was used or another is available, promotion always leaves a current and a next block |
| TetrisRules.SettleStep | src/hooks/useTetrisGame.ts:187-197 | settling keeps the state well formed (the effect is stated by SettleSpec) |
| TetrisRules.SettleSpec | src/hooks/useTetrisGame.ts:187-197 | settling a fitting block records it, keeps the game running at the same size and promotes the next block |
| TetrisRules.MoveStep | src/hooks/useTetrisGame.ts:169-198 | a move keeps the state well formed (the effect is stated by MoveSpec) |
| TetrisRules.MoveSpec | src/hooks/useTetrisGame.ts:169-198 | a move is a no-op when idle or with no block; the clamped candidate replaces the block when it fits; a blocked down move is the settle step on the block; any other blocked move changes nothing |
| TetrisRules.DownAtBottomIsNoOp | src/hooks/useTetrisGame.ts:182-188 | a down move of a block resting on the bottom edge changes nothing, whether or not the block fits: it is never placed |
| TetrisRules.RotateStep | src/hooks/useTetrisGame.ts:200-211 | a turn keeps the state well formed (the effect is stated by RotateSpec) |
| TetrisRules.RotateSpec | src/hooks/useTetrisGame.ts:200-211 | the turned block replaces the current one only when it fits, with no wall kick; a failed turn changes nothing; the turn keeps the cell count and three more turns give back the shape |
| TetrisRules.HardDropStep | src/hooks/useTetrisGame.ts:233-247 | a hard drop keeps the state well formed (the effect is stated by HardDropSpec) |
| TetrisRules.HardDropSpec | src/hooks/useTetrisGame.ts:233-247 | the block is settled (placed and the next block promoted) at its landing row when it fits there; otherwise nothing changes |
| TetrisRules.GravityStep | src/hooks/useTetrisGame.ts:280-299 | a gravity tick keeps the state well formed (the effect is stated by GravitySpec) |
| TetrisRules.GravitySpec | src/hooks/useTetrisGame.ts:280-299 | a tick moves the block down exactly one row, unclamped, when that fits; otherwise it settles the block where it is, or drops it from play when it does not fit there either |
| TetrisRules.SpawnFits | src/hooks/useTetrisGame.ts:68-69 | a freshly spawned block fits on an empty board of at least 20 × 18 |
| TetrisRules.StartStep | src/hooks/useTetrisGame.ts:251-274 | start keeps the state well formed (the effect is stated by StartSpec) |
| TetrisRules.FirstSkillDrawnTwice | src/hooks/useTetrisGame.ts:251-274 | start removes neither drawn skill from the pool, so when the first two ids differ, settling the first block draws skills[0] again as the new next block |
| TetrisRules.StartSpec | src/hooks/useTetrisGame.ts:251-274 | start sets playing, empties the placed map, clears the board at the current size and makes all skills available; it spawns skills[0] as current and skills[1] as next, both fitting and in bounds; the used skills are kept |
| TetrisRules.ResetStep | src/hooks/useTetrisGame.ts:306-320 | reset stops the game, removes every block, clears the board at the current size, makes all skills available and none used |
| TetrisRules.ResizeStep | src/hooks/useTetrisGame.ts:336-370 | a resize keeps the state well formed at the new size (the effect is stated by ResizeSpec) |
| TetrisRules.ResizeSpec | src/hooks/useTetrisGame.ts:336-370 | the board takes the derived size and is cleared only when a dimension differs; otherwise nothing changes; placed blocks are kept |
| TetrisRules.ResizeIdempotent | src/hooks/useTetrisGame.ts:364-369 | resizing twice to the same drawing area changes nothing the second time |
| TetrisRules.PlaceKeepsConsistent | src/hooks/useTetrisGame.ts:95-119 | placing keeps the placed map equal to the recorded blocks, and the board equal to them painted on an empty board |
| TetrisRules.SettleKeepsConsistent | src/hooks/useTetrisGame.ts:187-197 | so does settling |
| TetrisRules.MoveKeepsConsistent | src/hooks/useTetrisGame.ts:169-198 | so do moves |
| TetrisRules.RotateKeepsConsistent | src/hooks/useTetrisGame.ts:200-211 | so do turns |
| TetrisRules.HardDropKeepsConsistent | src/hooks/useTetrisGame.ts:233-247 | so do hard drops |
| TetrisRules.GravityKeepsConsistent | src/hooks/useTetrisGame.ts:280-299 | so do gravity ticks |
| TetrisRules.LifecycleKeepsConsistent | src/hooks/useTetrisGame.ts:323-325 | start and reset restore an empty board that agrees with the placed blocks; a resize keeps the board in agreement only when it changes nothing |
| TetrisRules.BoardIsPlacedPieces | src/hooks/useTetrisGame.ts:95-119 | until a resize, a board cell is occupied exactly when a placed block covers it |
| TetrisGame.TetrisEngine.constructor | src/hooks/useTetrisGame.ts:47-59 | the object starts in the initial state with a fresh 18 × 30 array of zeros |
| TetrisGame.TetrisEngine.CanPlaceBlock | src/hooks/useTetrisGame.ts:73-93 | the nested loops answer true exactly when every occupied shape cell lands inside the board on a free cell |
| TetrisGame.TetrisEngine.StampBoard | src/hooks/useTetrisGame.ts:99-106 | the loops write 1 into exactly the covered array cells |
| TetrisGame.TetrisEngine.PlaceBlock | src/hooks/useTetrisGame.ts:95-119 | in-place placement performs the placement step, result flag included, and writes into the same array |
| TetrisGame.TetrisEngine.CreateNextBlock | src/hooks/useTetrisGame.ts:122-167 | performs the promotion step |
| TetrisGame.TetrisEngine.SettleBlock | src/hooks/useTetrisGame.ts:189-196 | reports whether the block fitted; if so performs the settle step, otherwise changes nothing |
| TetrisGame.TetrisEngine.MoveBlock | src/hooks/useTetrisGame.ts:169-198 | performs the move step |
| TetrisGame.TetrisEngine.RotateBlock | src/hooks/useTetrisGame.ts:200-211 | performs the turn step |
| TetrisGame.TetrisEngine.DropPosition | src/hooks/useTetrisGame.ts:236-240 | the descent loop terminates at the landing row |
| TetrisGame.TetrisEngine.HardDrop | src/hooks/useTetrisGame.ts:233-247 | performs the hard-drop step |
| TetrisGame.TetrisEngine.GravityTick | src/hooks/useTetrisGame.ts:280-299 | performs the gravity step |
| TetrisGame.TetrisEngine.StartGame | src/hooks/useTetrisGame.ts:251-274 | performs the start step on a fresh array |
| TetrisGame.TetrisEngine.ResetGame | src/hooks/useTetrisGame.ts:306-320 | performs the reset step on a fresh array |
| TetrisGame.TetrisEngine.UpdateBoardDimensions | src/hooks/useTetrisGame.ts:336-370 | performs the resize step; leaves the object and its array untouched when the size is unchanged, and allocates a fresh array otherwise |
| TetrisBlockLabel.SkipSeparators | src/components/game/TetrisBlock.tsx:35 | drops a maximal leading run of separator characters |
| TetrisBlockLabel.Words | src/components/game/TetrisBlock.tsx:35 | splitting on runs of whitespace, '.' or '-' yields at least one word, and no word holds a separator |
| TetrisBlockLabel.WordsCount | src/components/game/TetrisBlock.tsx:35-36 | a name splits into more than one word exactly when it contains a separator |
| TetrisBlockLabel.Head | src/components/game/TetrisBlock.tsx:37 | the first character of a word, or nothing for an empty word |
| TetrisBlockLabel.FirstLetters | src/components/game/TetrisBlock.tsx:37 | joining first letters gives at most one character per word |
| TetrisBlockLabel.Initials | src/components/game/TetrisBlock.tsx:35-37 | the initials read straight off the name are no longer than the name |
| TetrisBlockLabel.InitialsSkip | src/components/game/TetrisBlock.tsx:35 | leading separators contribute no initial |
| TetrisBlockLabel.FirstLettersOfWords | src/components/game/TetrisBlock.tsx:35-37 | the first letters of the split words are exactly the name's initials, so empty words contribute nothing |
| TetrisBlockLabel.InitialsOfWord | src/components/game/TetrisBlock.tsx:37 | a separator-free leading word contributes only its first character |
| TetrisBlockLabel.InitialsOfTwoWords | src/components/game/TetrisBlock.tsx:37 | two words joined by a separator give their two first characters |
| TetrisBlockLabel.UpperChar | src/components/game/TetrisBlock.tsx:37 | upper-casing keeps every modelled character one character long except 'ß', which becomes "SS" |
| TetrisBlockLabel.Upper | src/components/game/TetrisBlock.tsx:37 | upper-casing never shortens a string and keeps the length when there is no 'ß' |
| TetrisBlockLabel.UpperAppend | src/components/game/TetrisBlock.tsx:40 | upper-casing distributes over concatenation |
| TetrisBlockLabel.Take | src/components/game/TetrisBlock.tsx:37 | `slice(0, n)` is the prefix of length `min(n, length)` |
| TetrisBlockLabel.AbbreviationAsWritten | src/components/game/TetrisBlock.tsx:21-41 | as written: a name of at most two characters is returned unchanged, the special names give their codes, and, under the modelled upper-casing, a label longer than two characters arises only from a 'ß' among the first two characters |
| TetrisBlockLabel.AsWrittenShortAndSpecial | src/components/game/TetrisBlock.tsx:22-32 | as written: "C#" → "C#", "Kubernetes" → "K8", "Next.js" → "NX" |
| TetrisBlockLabel.AsWrittenMultiWord | src/components/game/TetrisBlock.tsx:35-38 | as written: "React.js" → "RJ" |
| TetrisBlockLabel.AsWrittenSingleWord | src/components/game/TetrisBlock.tsx:40 | as written: "AWS" → "AW" |
| TetrisBlockLabel.AsWrittenExceedsTwo | src/components/game/TetrisBlock.tsx:40 | as written, the single-word path turns "ßql" into the three-character label "SSQ" |
| TetrisBlockLabel.Abbreviation | src/components/game/TetrisBlock.tsx:21-41 | the label has at most two characters on every path, and a name of at most two characters is returned unchanged |
| TetrisBlockLabel.AbbreviationSpec | src/components/game/TetrisBlock.tsx:21-41 | the eight special names map to their codes; a longer name with a separator gives its upper-cased initials cut to two; a single word gives its first two upper-cased characters |
| TetrisBlockLabel.AsWrittenAgrees | src/components/game/TetrisBlock.tsx:40 | the corrected label equals the as-written one whenever the first two characters hold no 'ß' |
| TetrisBlockLabel.ShortAndSpecialExamples | src/components/game/TetrisBlock.tsx:22-32 | "C#" → "C#", "Kubernetes" → "K8", "Next.js" → "NX" |
| TetrisBlockLabel.ReactInitials | src/components/game/TetrisBlock.tsx:35-37 | the initials of "React.js" are "Rj" |
| TetrisBlockLabel.MultiWordExample | src/components/game/TetrisBlock.tsx:35-38 | "React.js" → "RJ" |
| TetrisBlockLabel.SingleWordExample | src/components/game/TetrisBlock.tsx:40 | "AWS" → "AW" |
| TetrisBlockLabel.FontSizePx | src/components/game/TetrisBlock.tsx:44 | the font size is one of 6, 8 and 10 px: 6 px exactly up to 12, 10 px exactly above 16, 8 px in between |
| TetrisBlockLabel.CornerRadiusPx | src/components/game/TetrisBlock.tsx:47-51 | the corner radius is 1 px exactly up to 12, 3 px exactly above 16, and 2 px in between |
| TetrisBlockLabel.SizesMonotone | src/components/game/TetrisBlock.tsx:44-51 | both grow with the block size and switch at the same thresholds, between 12 and 13 px and between 16 and 17 px (font = 2 × radius + 4) |
| Typewriter.Step | src/components/common/TypewriterProvider.tsx:34-45 | a tick keeps the phrase index in range |
| Typewriter.Substring | src/components/common/TypewriterProvider.tsx:21 | `substring(0, n)` is a prefix of the phrase, of length n when n is in range, and the whole phrase beyond it |
| Typewriter.CurrentText | src/components/common/TypewriterProvider.tsx:20-21 | the published text is a prefix of the current phrase, as long as the cursor when the cursor is within the phrase |
| Typewriter.StepKeepsInRange | src/components/common/TypewriterProvider.tsx:34-45 | every tick keeps `textIndex < 3` and `charIndex ≤ |phrases[textIndex]|` |
| Typewriter.DisplayedIsPrefix | src/components/common/TypewriterProvider.tsx:19-21 | in range, the displayed text is the length-`charIndex` prefix of the current phrase |
| Typewriter.StepChangesTextByOne | src/components/common/TypewriterProvider.tsx:34-45 | typing shows the next character of the phrase; deleting removes the last one; the full-phrase tick keeps the whole phrase and only switches to deleting; the final tick shows nothing, stops deleting and moves to the next phrase modulo 3 |
| Typewriter.Run | src/components/common/TypewriterProvider.tsx:34-45 | any number of ticks keeps the phrase index in range |
| Typewriter.RunKeepsInRange | src/components/common/TypewriterProvider.tsx:34-45 | the range invariant holds after any number of ticks |
| Typewriter.ReachableInRange | src/components/common/TypewriterProvider.tsx:13-21 | every state reached from the initial state is in range and displays a prefix of its phrase |
| Typewriter.RunAdd | src/components/common/TypewriterProvider.tsx:34-45 | m + n ticks are m ticks followed by n ticks |
| Typewriter.TypeOut | src/components/common/TypewriterProvider.tsx:35-36 | k typing ticks advance the cursor by exactly k |
| Typewriter.EraseDown | src/components/common/TypewriterProvider.tsx:39-40 | k deleting ticks move the cursor back by exactly k |
| Typewriter.PhraseCycle | src/components/common/TypewriterProvider.tsx:34-45 | a phrase of length n is typed, held, erased and left in 2n + 2 ticks, ending at the empty start of the next phrase modulo 3 |
| Typewriter.RoundArithmetic | src/components/common/TypewriterProvider.tsx:19 | the three phrase cycles take 96 ticks in all, and three steps of `(i + 1) mod 3` return to i |
| Typewriter.FullRound | src/components/common/TypewriterProvider.tsx:34-45 | after 96 ticks from the empty start of any phrase the banner is back where it began |
| Typewriter.TypewriterProvider.constructor | src/components/common/TypewriterProvider.tsx:13-15 | the provider starts at phrase 0, cursor 0, typing |
| Typewriter.TypewriterProvider.Tick | src/components/common/TypewriterProvider.tsx:34-45 | the in-place timer callback performs exactly one step and keeps the range invariant |

## Left out

- Timers and React scheduling are not modelled. This covers the gravity interval, the zero-delay `setTimeout` that defers promotion of the next block, effect cleanup and `dropTimer`, the typewriter's 100 ms, 50 ms and 2000 ms delays, state batching and stale closures. Each action is one atomic transition. In the hook, the deferred `createNextBlock` is a closure made before the placement, so it reads the used-skill list from before the placement. In the cycle branch the hook's new pool therefore lacks the skill just placed. The model promotes after the placement, so its new pool includes that skill.
- `Math.random` and `Date.now()` are parameters (`k1`, `k2` for shape indices in [0, 7), `now` for the timestamp). One `now` stamps every block an action creates, so the two blocks drawn by `startGame`, or by promotion without a next block, get the same timestamp; the hook reads the clock once per block, and the two readings may differ. Block ids are therefore not claimed unique. A later block with the same id replaces the earlier one in the placed map, as in the hook.
- The skill icon component, block colours used only for CSS, and every `console.log` call are left out.
- The key-to-action mapping of `handleKeyDown` (src/hooks/useTetrisGame.ts:213-235) is left out; each action is a method of its own. Every action method repeats the hook's own "playing and a block in flight" guard.
- The context plumbing of `useTypewriter` and its error for a missing provider are left out, as is the constant `isTyping` flag.
- The cycle branch of `createNextBlock` calls `setAvailableSkills([...usedSkills])` inside an updater that itself returns `[newNextSkill]`, so the final pool is ambiguous. The model takes the enqueued copy of the used skills as the new pool. No other stated property depends on this choice.
- The pool is not claimed to conserve skills. `startGame` makes every skill available without removing the two it draws, so the first skill is drawn again right after it is placed (TetrisRules.FirstSkillDrawnTwice). `startGame` also does not clear the used skills, so a skill can be both available and used.
- TetrisGame.TetrisEngine.Valid ties the array to the grid and keeps the size invariant. It does not include the agreement between the board and the placed blocks. That agreement is proved on the step functions of TetrisRules and reaches the class through each method's state equation. A resize clears the board but keeps the placed blocks, so the agreement holds only from a start or reset until the next size change.
- TetrisGame.TetrisEngine.StartGame requires at least two skills. With fewer, the hook reads a field of `undefined` and throws, and that exception is not modelled.
- TetrisGame.TetrisEngine.DropPosition requires a shape with an occupied cell. Every catalog shape and every turn of one has such a cell; for a shape without one the hook's loop would never end.
- The hook's board is an empty list until its mount effect creates the 18 × 30 grid (src/hooks/useTetrisGame.ts:54, 323-325). The model starts from that grid. The `board[boardY] &&` guard in `canPlaceBlock` therefore has no case of its own.
- Shape cells and board cells are integers, tested as non-zero. Other JavaScript truthiness (NaN, non-numbers) is not modelled.
- Pixel sizes are integers. Fractional drawing-area sizes in `updateBoardDimensions` and fractional block sizes in the label thresholds are not modelled. Dafny's `/` by the positive cell size 30 is the floor that `Math.floor` takes.
- TetrisBlockLabel.AbbreviationAsWritten: its bound on labels longer than two characters holds under the modelled upper-casing only. JavaScript also lengthens other characters (the ligature 'ﬁ' becomes "FI", so "ﬁle" gives "FIL"), which the model does not capture.
- TetrisBlockLabel.UpperChar models `toUpperCase` only for ASCII letters, Latin-1 letters and 'ß'. Every other character is left unchanged, so other scripts and other expanding mappings are not captured.
- Strings are sequences of Unicode scalar values. JavaScript measures `length`, `slice` and `word[0]` in UTF-16 code units, so names with characters outside the Basic Multilingual Plane are not modelled faithfully.
- The typewriter's full-phrase tick schedules the switch to deleting after a pause. No state changes during the pause, so the switch is modelled as the effect of that tick itself.
- Rendering (colours, sizes as CSS strings, positions, icons) and the rest of the site are not part of this model.

## Findings

| source | as written | input that shows it | evidently intended | confidence | as-written member | corrected member |
|---|---|---|---|---|---|---|
| src/components/game/TetrisBlock.tsx:40 | a single-word name is cut to two characters first and upper-cased afterwards, and upper-casing can lengthen a character | "ßql" gives "SSQ", a three-character label | at most two characters, as the comment on line 20 says (the label must fit in a block) and the comment on line 24 repeats and as the multi-word path on line 37 gets by upper-casing before it slices | not executed; 'ß' upper-cases to "SS" in every JavaScript engine | TetrisBlockLabel.AsWrittenExceedsTwo | TetrisBlockLabel.Abbreviation |
