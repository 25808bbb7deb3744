# Smart Kaboom rules engine and update-check helpers, in Dafny

This project models two pure parts of Smart Kaboom, a two-team "flip the tile" board game.

The first part is the game engine in `src/lib/gameLogic.js`:

- **Board generation** (`createBoard`). A fixed pool of 64 tiles is built: one 100-point tile, two 50s, three 30s, five 20s and ten 10s. Then come three bombs, two extra lives and one multiplier. The remaining 37 tiles are one-point "try again" tiles. The pool is shuffled with Fisher–Yates and laid out row-major on an 8×8 grid.
- **The initial state** (`createGameState`). Two teams start with score 0, 3 lives and multiplier 1. They have no flipped cells and can continue. Team 1 moves first and the game is not over.
- **The flip transition** (`processTileFlip`). It records the cell in the acting team's flipped set and applies the tile. A points or try-again tile adds value × multiplier and resets the multiplier. A bomb zeroes the score and costs a life; the team is out once its lives reach 0 or below. A life tile adds a life, with no cap. A multiplier tile sets the multiplier to 2. The game ends when neither team can continue. The turn passes to the other team when the acting team neither continues nor is out.

The second part is the pure logic of `src/lib/services/versionCheck.js`:

- dotted-version comparison, where missing components count as 0;
- splitting a version string at its dots;
- removing the `app-v` prefix from a release tag;
- the `hasUpdate` decision against the built-in version 1.0.7;
- classifying a release asset's file name by platform, with ordered, case-insensitive rules;
- mapping a platform to its icon.

The model is functional. The source mutates the game-state object in place; here `ProcessTileFlip` returns the new state along with the message and the `continuePlay` flag. The random index of each shuffle step (`Math.random` at `src/lib/gameLogic.js:41`) is an explicit input: a choice sequence whose k-th entry is the j drawn when i = n-1-k, with 0 ≤ j ≤ i.

The model follows the code of `gameLogic.js`, which implements a simple ruleset.

Files:

- `decimal.dfy` (module `Decimal`): decimal digit strings, used for the `row-col` cell keys, the score messages and version components.
- `board.dfy` (module `Board`): tiles, the pool, Fisher–Yates, the grid.
- `game.dfy` (module `Game`): team and game state, the flip transition, and runs of flips.
- `versions.dfy` (module `Versions`): version comparison, splitting, the tag prefix and the update decision.
- `platforms.dfy` (module `Platforms`): platform detection and icons.

## Model

| member | source | states |
|---|---|---|
| Board.Pool | src/lib/gameLogic.js:1-37 | the pool has exactly 64 tiles and its multiset is the frequency table, with the 37 try-again tiles that fill the pool up to 64 |
| Board.FrequencyCounts | src/lib/gameLogic.js:5-37 | per tile: 1×100, 2×50, 3×30, 5×20, 10×10 points, 3 bombs, 2 lives, 1 multiplier, 37 one-point try-again tiles, and no other tile |
| Board.FrequencyTableSize | src/lib/gameLogic.js:33-37 | the frequency table totals 64 tiles |
| Board.Swap | src/lib/gameLogic.js:42 | slots i and j exchange their tiles and every other slot keeps its tile |
| Board.ShuffleFrom | src/lib/gameLogic.js:40-43 | the loop from index i down to 1 keeps the length, and never touches the slots above i |
| Board.FisherYates | src/lib/gameLogic.js:40-43 | the whole shuffle keeps the length, and the tile chosen in the first iteration ends in the last slot |
| Board.ShuffleFromPermutes | src/lib/gameLogic.js:40-43 | the shuffle loop, started at any index, only rearranges the tiles: the multiset after it equals the multiset before |
| Board.FisherYatesPermutes | src/lib/gameLogic.js:40-43 | for every valid choice sequence, the shuffled multiset equals the input multiset |
| Board.Shuffle | src/lib/gameLogic.js:39-43 | the in-place loop from the last index down to 1, swapping i with the chosen j ≤ i, computes the recursive shuffle and is a permutation |
| Board.ChoiceStep | src/lib/gameLogic.js:40-43 | swapping slot i with a slot j ≤ i that holds p's tile for slot i settles slot i, and the open slots below i remain a rearrangement of p's |
| Board.ChoicesFrom | src/lib/gameLogic.js:40-43 | when slots above i already agree with p and the slots up to i are a rearrangement of p's, it builds valid choices for the remaining iterations under which the loop ends in exactly p |
| Board.ChoicesFor | src/lib/gameLogic.js:40-43 | for any rearrangement p of s, it builds a valid choice sequence under which the shuffle of s yields exactly p |
| Board.LayOut | src/lib/gameLogic.js:45-52 | the grid has 8 rows of 8 cells and board[row][col] == tiles[row*8+col] |
| Board.FlattenIndex | src/lib/gameLogic.js:46-52 | reading a grid row by row puts cell (row, col) at index row*8+col |
| Board.FlattenLayOut | src/lib/gameLogic.js:46-52 | reading the laid-out grid back row by row gives the shuffled tiles: the layout loses and reorders nothing |
| Board.CreateBoard | src/lib/gameLogic.js:1-55 | the board is an 8×8 grid, each cell is the shuffled pool tile row*8+col, and the board's tiles are exactly the frequency table |
| Board.EveryBoardReachable | src/lib/gameLogic.js:39-52 | every 8×8 grid holding the frequency table is produced by some valid choice sequence |
| Decimal.DigitsToNat | src/lib/services/versionCheck.js:44-45 | `Number` on a digit string: the empty string is 0 and a single digit is its value |
| Decimal.LeadingZeroIgnored | src/lib/services/versionCheck.js:44-45 | a leading zero does not change the value, as `Number("007")` is 7 |
| Decimal.NatToString | src/lib/gameLogic.js:81 | the decimal rendering of a cell coordinate is non-empty, holds only digits, has no leading zero, and reads back as the number |
| Decimal.IntToString | src/lib/gameLogic.js:94 | the rendering of a score gain has a leading minus exactly for negative numbers, and reads back as the number |
| Decimal.IntToStringCanonical | src/lib/gameLogic.js:94 | the rendering of a score gain is the shortest one: "0" is the only rendering starting with 0, and a minus sign is followed by a non-zero digit |
| Game.Other | src/lib/gameLogic.js:131 | the other team is never the acting team |
| Game.TileId | src/lib/gameLogic.js:81 | the key of cell (row, col): the row in decimal, a dash, the column in decimal; what the key reads back as is stated by TileIdDecodes |
| Game.TileIdDecodes | src/lib/gameLogic.js:81 | the key `${row}-${col}` is the row in decimal, a dash, then the column in decimal, and both halves read back as the coordinates |
| Game.TileIdInjective | src/lib/gameLogic.js:81 | distinct cells get distinct `row-col` keys |
| Game.CreateGameState | src/lib/gameLogic.js:57-77 | both teams start at score 0, 3 lives, multiplier 1, no flipped cells, able to continue, with their names; team 1 moves first and the game is not over |
| Game.InitialStateWellFormed | src/lib/gameLogic.js:57-77 | the initial state satisfies the invariant kept by every flip |
| Game.ApplyTile | src/lib/gameLogic.js:87-128 | points and try-again tiles add value × multiplier and reset the multiplier; a bomb zeroes the score, costs a life, and puts the team out exactly when lives reach 0 or below, saying "Game Over!" exactly then; a life tile adds one life and changes nothing else; a multiplier tile sets the multiplier to 2; only life, multiplier and try-again tiles continue play; a team that is out stays out; no tile but a bomb lowers a score when values are non-negative and the multiplier is at least 1 |
| Game.ApplyTileMessage | src/lib/gameLogic.js:90-128 | the message is `+<points> points!` for points, `+<points> point! Try one more time!` for try-again, `Bomb! Lost all points and a life!` for a bomb, followed by ` Game Over!` exactly when lives reach 0 or below, `Extra life gained!` for a life and `Next points will be doubled!` for a multiplier, where points is value × multiplier |
| Game.ProcessTileFlip | src/lib/gameLogic.js:80-142 | the cell is added to the acting team's set; the tile's effect is applied to that team; the other team is untouched; gameOver is set when neither team can continue and never reset; the turn goes to the other team exactly when play does not continue and the acting team is not out, and is otherwise unchanged |
| Game.FlipRecordsCell | src/lib/gameLogic.js:81-85 | after a flip the acting team's set holds cell (row, col), and any other cell exactly when it held it before |
| Game.ReflipKeepsFlippedSet | src/lib/gameLogic.js:84-85 | recording an already-recorded cell leaves the set unchanged |
| Game.ApplyTileKeepsTeamOk | src/lib/gameLogic.js:87-128 | with a non-negative tile value, a team's multiplier stays in {1, 2}, its score stays non-negative, and a team without lives stays unable to continue |
| Game.FlipPreservesWellFormed | src/lib/gameLogic.js:80-139 | with non-negative tile values, a flip keeps multipliers in {1, 2}, scores non-negative, every team without lives out, and gameOver only when both teams are out |
| Game.PlayPreservesWellFormed | src/lib/gameLogic.js:80-139 | the same invariant holds after any sequence of flips |
| Game.PlayMonotone | src/lib/gameLogic.js:98-134 | over any sequence of flips, a finished game stays finished and a team that is out stays out |
| Game.PlayLivesLedger | src/lib/gameLogic.js:98-112 | after any sequence of flips, a team's lives equal the start value, plus its life tiles, minus its bombs |
| Game.PlayFlippedLedger | src/lib/gameLogic.js:81-85 | after any sequence of flips, a team's flipped set is the start set plus the cells that team flipped |
| Game.FirstFlipScenario | src/lib/gameLogic.js:91-96 | in a fresh game, team 1 flipping the 100-point tile gets score 100, the message "+100 points!", no continuation, and the turn passes to team 2 |
| Game.LastLifeBombScenario | src/lib/gameLogic.js:98-134 | a bomb on the last life leaves 0 lives and 0 points and puts the team out; if the other team is out, the game ends and the turn stays |
| Versions.Part | src/lib/services/versionCheck.js:48-49 | component i of the version, and 0 past its end |
| Versions.CompareFrom | src/lib/services/versionCheck.js:47-55 | from component i on, the comparison is -1, 0 or 1; it is 0 exactly when no component differs, and otherwise its sign is set by the first differing component, with missing components read as 0 |
| Versions.CompareVersions | src/lib/services/versionCheck.js:43-56 | the result is in {-1, 0, 1}; it is 0 exactly when all zero-padded components agree; it is -1 (or 1) exactly when the first differing component is smaller (or larger) in `current` |
| Versions.CompareAntisymmetric | src/lib/services/versionCheck.js:51-52 | compare(a, b) == -compare(b, a) |
| Versions.CompareReflexive | src/lib/services/versionCheck.js:47-55 | compare(v, v) == 0 |
| Versions.CompareTransitive | src/lib/services/versionCheck.js:47-55 | if a is older than b and b is older than c, then a is older than c |
| Versions.CompareIgnoresTrailingZeros | src/lib/services/versionCheck.js:47-49 | appending zero components does not change a comparison, so [1,0] equals [1,0,0] |
| Versions.HasUpdate | src/lib/services/versionCheck.js:16 | `hasUpdate` holds exactly when the first differing component of the current version is smaller |
| Versions.HasUpdateAsymmetric | src/lib/services/versionCheck.js:16 | no update is offered for the same version, and never in both directions |
| Versions.StripTagPrefix | src/lib/services/versionCheck.js:13 | the result is the tag minus a leading `app-v` when the tag starts with it, and the tag unchanged otherwise |
| Versions.StripTagPrefixInverse | src/lib/services/versionCheck.js:13 | stripping `app-v` + v gives back v, removing the prefix only once |
| Versions.DecidedAt | src/lib/services/versionCheck.js:51-52 | a smaller component at index i makes the first version older from i on, and neither equal nor newer |
| Versions.OlderFromNext | src/lib/services/versionCheck.js:47-53 | equal components at index i pass the decision on to index i + 1 |
| Versions.Split | src/lib/services/versionCheck.js:44-45 | `split('.')` yields at least one piece, so the empty string gives one empty piece |
| Versions.SplitCount | src/lib/services/versionCheck.js:44-45 | there is one piece more than there are dots |
| Versions.JoinSplit | src/lib/services/versionCheck.js:44-45 | joining the pieces of `split('.')` with dots gives the input back |
| Versions.SplitPiecesHaveNoDot | src/lib/services/versionCheck.js:44-45 | no piece of `split('.')` holds a dot |
| Versions.PiecesAreDigits | src/lib/services/versionCheck.js:44-45 | the pieces of digit-and-dot text are digit strings |
| Versions.SplitJoin | src/lib/services/versionCheck.js:44-45 | splitting the dot-join of dot-free pieces gives the pieces back |
| Versions.ParseJoined | src/lib/services/versionCheck.js:44-45 | the dot-join of digit pieces is version text and parses to the pieces' decimal values |
| Versions.ParseVersion | src/lib/services/versionCheck.js:44-45 | there is one component per piece, each the decimal value of its digits, and an empty piece counts as 0 |
| Versions.CurrentVersionParts | src/lib/services/versionCheck.js:3 | the built-in version "1.0.7" reads as [1, 0, 7] |
| Versions.UpdateAvailable | src/lib/services/versionCheck.js:13-16 | an update is reported exactly when the stripped tag's version is newer than [1, 0, 7] |
| Versions.NewerPatchOffered | src/lib/services/versionCheck.js:13-16 | tag `app-v1.0.10` offers an update, since 10 is compared as a number and not as text |
| Versions.SameVersionNotOffered | src/lib/services/versionCheck.js:13-16 | tag `app-v1.0.7` offers no update |
| Versions.PaddedVersionNotOffered | src/lib/services/versionCheck.js:13-16 | tag `1.0.7.0`, which has no prefix, offers no update |
| Platforms.Lower | src/lib/services/versionCheck.js:59 | the length is kept, every capital A–Z becomes its small letter, every other character is kept, and no capital is left |
| Platforms.Contains | src/lib/services/versionCheck.js:61-65 | `includes` holds exactly when the pattern occurs at some index of the name |
| Platforms.DetectPlatform | src/lib/services/versionCheck.js:58-68 | the result is one of macOS, its two variants, Windows, Linux or Unknown |
| Platforms.AnyContainsSpec | src/lib/services/versionCheck.js:62-65 | a rule's `||` of `includes` tests holds exactly when one of its patterns occurs in the name |
| Platforms.FirstMatchEarliest | src/lib/services/versionCheck.js:61-65 | the platform of the earliest rule with a matching pattern wins |
| Platforms.FirstMatchNone | src/lib/services/versionCheck.js:67 | "Unknown" is returned when no rule matches |
| Platforms.DetectFollowsRules | src/lib/services/versionCheck.js:58-67 | detection equals first-match classification of the lower-cased name against the ordered rule table (.dmg; .msi/.exe; .appimage/.deb/.rpm; aarch64/arm64; x86_64/intel) |
| Platforms.DetectIgnoresCase | src/lib/services/versionCheck.js:59 | two names that differ only in letter case are classified alike |
| Platforms.DiskImageIsMacOS | src/lib/services/versionCheck.js:61 | any name containing `.dmg`, in any case, is macOS, whatever later rules it also matches |
| Platforms.AppleSiliconDiskImage | src/lib/services/versionCheck.js:61-64 | a name with both `aarch64` and `.DMG` is macOS, not "macOS (Apple Silicon)" |
| Platforms.UnmatchedIsUnknown | src/lib/services/versionCheck.js:67 | a name that matches no pattern is "Unknown" |
| Platforms.PlatformIcon | src/lib/services/versionCheck.js:70-82 | all three macOS variants map to `fab fa-apple`, Windows to `fab fa-windows`, Linux to `fab fa-linux`, and any other string to `fas fa-download` |
| Platforms.IconOfDetectedAsset | src/lib/services/versionCheck.js:58-82 | a detected asset gets the download icon exactly when it is Unknown, and the apple icon exactly when it is a macOS variant |

## Left out

- `checkForUpdates` network and JSON handling (src/lib/services/versionCheck.js:5-41) is left out. This covers `fetch`, the HTTP status check, JSON decoding, mapping the assets, console logging and the `catch` path that reports no update. Only the prefix strip (line 13) and the `hasUpdate` expression (line 16) are modelled.
- `formatFileSize` (src/lib/services/versionCheck.js:85-93) is left out because it is floating-point logarithms and rounding.
- `Math.random` becomes an explicit choice sequence. Uniformity and probability are not modelled; `EveryBoardReachable` states only that every arrangement can occur.
- `Number()` and `|| 0` in `compareVersions` are modelled only for pieces made of decimal digits. Non-numeric pieces read as NaN and then 0 in the source; other JavaScript numeric syntax (`1e3`, `0x10`, spaces) is not modelled either. `Versions.ParseVersion` and `Versions.UpdateAvailable` therefore require digit-and-dot text.
- JavaScript numbers are IEEE doubles; the model uses unbounded integers. Scores, lives and version components beyond 2^53 lose precision in the source but not here.
- `toLowerCase` is modelled for ASCII letters only. Non-ASCII case mappings, such as U+0130 lower-casing to "i" plus a combining dot, are not modelled.
- Cell coordinates are natural numbers: callers are assumed to pass natural coordinates. The source would also format negative or fractional coordinates into a key.
- The tile `type` and the team are closed enumerations here. The source's `switch` has no default: an unknown `type` would add the cell to the flipped set, return an empty message and no continuation, pass the turn only when the acting team can still continue, and end the game when both teams are out. A team name other than `team1`/`team2` would make the source throw.
- The state is returned, not mutated. Aliasing of the caller's state object is therefore not modelled.
- The build and styling configuration (`svelte.config.js`, `tailwind.config.js`, `src/routes/+layout.js`) holds no logic and is not part of this model.
- Behaviours absent from `src/lib/gameLogic.js` are not modelled: a win-score threshold, minimum and maximum tries per turn, pass tracking, a lives cap and a winner field.
