# spe_ed server core in Dafny

This project models the core of the spe_ed game server. spe_ed is a multi-player grid game. Each player moves a head over a board and leaves a trail, and a player whose path crosses a trail, another head or the border drops out.

The model covers these parts of the server:

- the round engine: applying one answer per player, moving players with the hole rule, writing trails and collisions, the crash check, the end of a round and of a game, the winner and the start-up of the board and players;
- the lobby bookkeeping (`AddPlayer`, `MissingPlayer`, `IsReady`, `setMaxPlayer`);
- the API-key counter;
- the AI registry with its pool and pool naming;
- the pseudonym dictionary;
- every built-in bot's decision procedure.

The Dafny is purely functional:

- The board is an immutable `seq<seq<int>>` and players are records.
- An answer is an `Action` datatype, and a bot's `GetState` is a function from a board snapshot to an optional action.
- Everything the Go code takes from `rand`, from map iteration order or from an unseen random bot is a parameter. The random bot's answer is the parameter `fallback`.

Files and modules:

| file | module | models |
|---|---|---|
| wrappers.dfy | Wrappers | `Option` and `Result` |
| rules.dfy | Rules | constants, directions and the turn tables, actions and their wire names, the board, a player, path geometry and the hole rule |
| engine.dfy | Engine | one round of `RunGame`, `checkEndRound`, `checkEndGame`, the winner, `invalidatePlayer`, board and start-position initialisation |
| lobby.dfy | Lobby | `setMaxPlayer`, `AddPlayer`, `MissingPlayer`, `IsReady` |
| keys.dfy | Keys | `InitKeys` line filter, `ClaimKey`, `ReleaseKey` |
| registry.dfy | Registry | `RegisterAI`, `UpdateAIPool`, `GetAINames`, `GetAI` |
| pseudonym.dfy | Pseudonym | the word list, `NewPseudonym`, `Get`, the rotation step of `worker` |
| lookahead.dfy | Lookahead | the bots' `progress` and `revert` and the dead-zone marking shared by JumpAI, SuperRandomAI, LargestFreeAI and RandomAISlow |
| sensing.dfy | Sensing | single-cell and ray probes, the high-speed escape ladder, the snail ladder, `isInSmallArea` |
| ai_*.dfy | one module per bot | the bot's `GetState` and its helpers |

Every bot's "progress" is one copy of the engine's movement code with a scratch value −33 in place of the player id. `Lookahead.Progress` models it once. `Lookahead.ProgressMatchesEngine` proves that a surviving look-ahead move puts the player where `Engine.MovePlayer` does and marks the same cells.

## Model

| member | source | states |
|---|---|---|
| Rules.ParseAction | spe_ed/server/game.go:346-385 | an answer string is recognised exactly when it is one of the five action names, and it then names that action |
| Rules.RotateLeft | spe_ed/server/game.go:349-359 | turn_left turns the heading a quarter turn counter-clockwise on screen: the new step vector is (dy, −dx) of the old one |
| Rules.RotateRight | spe_ed/server/game.go:360-370 | turn_right turns the heading a quarter turn clockwise: the new step vector is (−dy, dx) of the old one |
| Rules.RotationsInvert | spe_ed/server/game.go:349-370 | turning left and then right, or right and then left, gives back the original heading |
| Rules.RotationsArePermutations | spe_ed/server/game.go:349-370 | both turn tables are one-to-one on the four headings and each is the inverse of the other |
| Rules.RayIndex | spe_ed/server/game.go:407-408 | the step number at which a straight move reaches a given cell, and that no other step reaches it |
| Rules.RayLeavesForGood | spe_ed/server/game.go:407-412 | once a straight move has left the board it never comes back, so stopping at the first step outside loses nothing |
| Rules.HoleSteps | spe_ed/server/game.go:413 | the hole rule: a step is a hole only at speed 3 or more in a round whose step counter is a multiple of 6, never on the first or the last step, and every inner step of such a move is one |
| Rules.Steer | spe_ed/server/game.go:349-382 | an action never moves the player, changes its activity or its step counter; a turn keeps the speed and is undone by the opposite turn; a speed action keeps the heading and changes the speed by exactly one; change_nothing changes nothing |
| Rules.OverspeedLeavesRange | spe_ed/server/game.go:371-380 | from a speed in 1..10 an action is refused exactly when the steered speed leaves 1..10, and only speed_up and slow_down can be refused |
| Engine.Invalidate | spe_ed/server/game.go:557-567 | an unknown id changes nothing; a known id becomes inactive and its input slot is closed, and nothing else changes |
| Engine.ApplyAnswer | spe_ed/server/game.go:346-385 | the player is invalidated exactly on an empty or unknown answer, on speed_up past 10 or on slow_down below 1; turns use the turn tables, speed changes by one and change_nothing changes nothing; a player that stays active keeps its speed within 1..10 |
| Engine.ProcessAnswers | spe_ed/server/game.go:344-386 | the answer loop keeps the board, the set of players and the six input slots, and treats each player by its own answer alone |
| Engine.ProcessAnswersKeepsSpeed | spe_ed/server/game.go:345-386 | after all answers are applied every player still active was active before and has speed in 1..10, and every player whose answer did not parse is inactive |
| Engine.MoveSteps | spe_ed/server/game.go:407-421 | the step loop stops early exactly when the move's last cell lies outside the board, and then at the first step whose cell is outside: every earlier step is on the board |
| Engine.TrailValueOnPath | spe_ed/server/game.go:413-420 | the trail value of a cell: a cell some non-hole step of the rest of the move lands on gets the trail mark; a cell only hole steps or no step lands on keeps its value |
| Engine.MoveStepsTrail | spe_ed/server/game.go:413-420 | the remaining steps of the loop write each non-hole cell they visit as the trail rule says and leave every other cell alone |
| Engine.MovePlayer | spe_ed/server/game.go:389-422 | a move raises stepCounter by exactly one and keeps speed and heading; the player stays active exactly when the last cell of the move is on the board, and it then stands on that cell |
| Engine.MoveAdvancesBySpeed | spe_ed/server/game.go:405-412 | a player that survives its move has advanced exactly speed cells along its heading |
| Engine.MoveTrail | spe_ed/server/game.go:413-420 | a cell on the path that is not a hole becomes the player id if it was 0 and −1 otherwise; holes and all cells off the path are untouched |
| Engine.MoveOne | spe_ed/server/game.go:389-422 | moving one player keeps the board size and every other player, never re-activates anyone, and a surviving player has moved by the movement rule |
| Engine.MoveAll | spe_ed/server/game.go:389-422 | moving all players in map order, each of them once, keeps the board size and every speed and never re-activates anyone |
| Engine.MoveAllMoves | spe_ed/server/game.go:389-422 | after the loop every player still active has moved by the movement rule |
| Engine.MoveAllUntouched | spe_ed/server/game.go:389-392 | a player the order does not list is untouched by the loop |
| Engine.BackCellIsPathCell | spe_ed/server/game.go:429-454 | stepping back s cells from the head is path step speed−1−s, and the hole test is symmetric under this reversal |
| Engine.BackWalk | spe_ed/server/game.go:441-454 | the backward walk reports a crash exactly when some remaining backward step that is not a hole is on the board and holds −1 |
| Engine.BackWalkFindsCollision | spe_ed/server/game.go:441-454 | the backward crash walk from the head finds a −1 exactly when some non-hole cell of this round's path holds −1 |
| Engine.CheckCrashes | spe_ed/server/game.go:425-455 | the crash check leaves the board alone and deactivates exactly the active players whose backward walk meets a collision |
| Engine.CrashRule | spe_ed/server/game.go:389-455 | after all moves a player stays active exactly when it survived its move and no non-hole cell of its path holds −1 |
| Engine.CheckEndRound | spe_ed/server/game.go:529-540 | a round ends exactly when every open input slot in the common prefix of slots and answers has a non-empty answer |
| Engine.CheckEndGame | spe_ed/server/game.go:544-552 | the game ends exactly when at most one player is active |
| Engine.Winner | spe_ed/server/game.go:472-478 | the winner is −1 or an active player, and −1 only when no player in the iteration order is active |
| Engine.WinnerIsSoleSurvivor | spe_ed/server/game.go:458-478 | at the end of a game the winner is −1 exactly when nobody is active, and otherwise it is the only active player |
| Engine.Round | spe_ed/server/game.go:344-455 | with the players visited once each in map order, after a whole round every player still active was active before and has speed 1..10, and a player whose answer is not an action name is out |
| Engine.BoardSide | spe_ed/server/game.go:134-135 | a board side is drawn in 41..80 |
| Engine.QuarterSevenOutsideBoard | spe_ed/server/game.go:178-180 | the start area written for quarter 7 lies wholly below the board |
| Engine.QuarterBaseAsWritten | spe_ed/server/game.go:156-181 | quarters 0..6 as written sit in column n mod 4 and row n div 4 of the quarter grid, while quarter 7 is written at column 1 and row 3 |
| Engine.QuarterBase | spe_ed/server/game.go:156-181 | quarters 0..6 start where the source says, and quarter n sits in column n mod 4 and row n div 4 |
| Engine.QuartersInsideAndDisjoint | spe_ed/server/game.go:147-183 | every start cell of quarters 0..7 lies on the board and different quarters never give the same cell |
| Engine.StartDirection | spe_ed/server/game.go:187-199 | the start heading always points at a cell inside the board |
| Engine.StartPlayer | spe_ed/server/game.go:151-201 | a started player is active with speed 1, stands on the board and faces a cell on the board |
| Engine.StartPlayers | spe_ed/server/game.go:150-202 | the start positions of all players are pairwise different, one per quarter in iteration order |
| Engine.WriteIds | spe_ed/server/game.go:185 | each start cell holds its player's id and no other cell changes |
| Engine.InitGame | spe_ed/server/game.go:134-209 | the initial board is 41..80 on each side, the players are exactly the joined ones, the state is well formed, and slot j is open exactly when player j+1 exists |
| Engine.InitGameStarts | spe_ed/server/game.go:150-206 | at the start every player is active with speed 1, stands on a cell holding its own id and faces an in-board cell |
| Engine.InitGameCover | spe_ed/server/game.go:134-206 | at the start no cell is written except the players' own start cells |
| Lobby.SetMaxPlayer | spe_ed/server/game.go:583-587 | MaxPlayer is set once, to a value in 2..6, and is never changed afterwards |
| Lobby.AddPlayer | spe_ed/server/game.go:74-92 | adding fails with ErrFullGame exactly when the lobby is full, and changes nothing then; otherwise the player is stored under id numberPlayer+1 |
| Lobby.MissingPlayer | spe_ed/server/game.go:570-579 | the number of missing players is MaxPlayer − numberPlayer, cut off at 0 |
| Lobby.IsReady | spe_ed/server/game.go:95-102 | a game is ready exactly when numberPlayer equals MaxPlayer |
| Lobby.LobbyInvariant | spe_ed/server/game.go:74-102 | every lobby operation keeps the player map equal to ids 1..numberPlayer and numberPlayer at most MaxPlayer |
| Lobby.ReadyIffNoneMissing | spe_ed/server/game.go:74-102 | a lobby is ready exactly when no player is missing, and exactly then AddPlayer fails |
| Lobby.FillingMakesReady | spe_ed/server/game.go:74-102 | adding as many players as are missing makes the lobby ready |
| Keys.StatusCode | spe_ed/server/keys.go:25-32 | KeyOK, KeyRateLimit and KeyInvalid are 0, 1 and 2 |
| Keys.StatusCodesDistinct | spe_ed/server/keys.go:25-32 | the three status codes are distinct |
| Keys.IsKeyLine | spe_ed/server/keys.go:49-58 | the filter of the key file: a line names a key unless it is empty or starts with '#'; its effect on the map is stated by Keys.InitKeys |
| Keys.InitKeys | spe_ed/server/keys.go:49-58 | every line that is non-empty and does not start with '#' becomes a key with NumberAllowedGames uses; other keys keep their counts |
| Keys.ClaimKey | spe_ed/server/keys.go:68-89 | KeyInvalid exactly for "" or an unknown key; KeyRateLimit exactly for a known key with 0 uses left; the map changes only on KeyOK, and then only that key's count drops by one |
| Keys.ReleaseKey | spe_ed/server/keys.go:93-106 | releasing "" or an unknown key changes nothing; otherwise that key's count rises by one |
| Keys.CountsStayNonNegative | spe_ed/server/keys.go:42-106 | no key operation makes a count negative |
| Keys.ClaimThenRelease | spe_ed/server/keys.go:65-106 | releasing a key right after a successful claim restores the map |
| Keys.ReleaseThenClaim | spe_ed/server/keys.go:65-106 | claiming a known key right after a release succeeds and restores the map |
| Registry.RegisterAI | spe_ed/server/ai.go:115-126 | a name that is already registered and a nil factory are rejected, in that order, and the registry is then unchanged; on success exactly that name is added |
| Registry.NatToString | spe_ed/server/ai.go:150 | the decimal text of a count is non-empty, all digits, and has no leading zero unless the count is 0 |
| Registry.NatToStringRoundTrip | spe_ed/server/ai.go:150 | the decimal text of a count reads back as that count |
| Registry.NatToStringInjective | spe_ed/server/ai.go:150 | different counts give different decimal texts |
| Registry.PoolKey | spe_ed/server/ai.go:150 | the pseudonym key of a pool entry is AI-, the name, a dash and the decimal count; Registry.PoolKeyInjective proves the key determines name and count |
| Registry.UpdateAIPool | spe_ed/server/ai.go:132-155 | fewer than 6 names or any unknown name is an error and leaves the pool unchanged; otherwise entry i makes ais[i] and carries the key AI-<name>-<k>, where k counts that name among the first i+1 names |
| Registry.PoolKeyInjective | spe_ed/server/ai.go:150 | a pool key determines its name and count |
| Registry.PoolKeysDistinct | spe_ed/server/ai.go:140-152 | all keys of a new pool are different |
| Registry.Insert | spe_ed/server/ai.go:165 | inserting a new name into a sorted list keeps it strictly sorted and adds exactly that name |
| Registry.GetAINames | spe_ed/server/ai.go:158-167 | the result is strictly sorted and holds exactly the registered names, once each |
| Registry.GetAI | spe_ed/server/ai.go:171-191 | asking for more entries than the pool holds, or for a negative number, fails; otherwise the result has num entries taken from pairwise different pool positions, before their constructors run |
| Registry.CallSlots | spe_ed/server/ai.go:151 | calling the chosen entries in order gives one bot per entry, adds exactly the entries' keys to the pseudonym dictionary and keeps every entry it had |
| Registry.CallSlotsNames | spe_ed/server/ai.go:151 | the i-th bot comes from the factory of the i-th entry and is named by the dictionary's value for that entry's key after all calls |
| Registry.GetAINamed | spe_ed/server/ai.go:171-191 | GetAI with the entries' constructors called: the same errors, num named bots, and the dictionary grows by exactly the keys of the drawn entries |
| Registry.GetAINamedPicks | spe_ed/server/ai.go:180-191 | the i-th named bot comes from pool position perm[i] and carries the dictionary value of that entry's key |
| Registry.DrawIsSubMultiset | spe_ed/server/ai.go:180-188 | the entries drawn with distinct positions form a sub-multiset of the pool |
| Pseudonym.WordlistFacts | spe_ed/server/pseudonym.go:113-218 | the word list has 104 entries and none is empty or contains '-' |
| Pseudonym.NewPseudonym | spe_ed/server/pseudonym.go:67-73 | a pseudonym is at least five characters long |
| Pseudonym.SplitDash | spe_ed/server/pseudonym.go:72 | splitting on '-' yields at least one part and no part contains '-' |
| Pseudonym.SplitNewPseudonym | spe_ed/server/pseudonym.go:67-73 | splitting a new pseudonym on '-' gives back exactly the three drawn words |
| Pseudonym.IsPseudonym | spe_ed/server/pseudonym.go:67-73 | the generated format: a value splits at '-' into exactly three words of the word list; Pseudonym.GetKeepsFormat shows that Get keeps to it |
| Pseudonym.Get | spe_ed/server/pseudonym.go:102-111 | a known key returns its stored value and changes nothing; an unknown key gets a new pseudonym, which is stored and returned |
| Pseudonym.GetIdempotent | spe_ed/server/pseudonym.go:102-111 | a second Get of the same key returns the same value and changes nothing |
| Pseudonym.GetOnlyAddsKey | spe_ed/server/pseudonym.go:105-109 | Get adds at most its own key and keeps every other entry |
| Pseudonym.GetKeepsFormat | spe_ed/server/pseudonym.go:102-111 | if all stored values are pseudonyms they stay so, and Get returns a pseudonym |
| Pseudonym.Rotate | spe_ed/server/pseudonym.go:78-83 | the rotation keeps the key set, and every key's new value splits at '-' into the three words of that key's own draw |
| Lookahead.Moving | spe_ed/server/ai_jump.go:193-253 | the steered player is still at its old position and its step counter has risen by one |
| Lookahead.Walk | spe_ed/server/ai_jump.go:241-270 | the step loop of a look-ahead move keeps a valid board of the same size; Lookahead.WalkMarks states what it writes |
| Lookahead.WalkMarks | spe_ed/server/ai_jump.go:241-270 | the step loop marks exactly the cells it records with −33, and every recorded cell was free and is one the move lands on |
| Lookahead.Progress | spe_ed/server/ai_jump.go:187-272 | a look-ahead move marks exactly the recorded cells with −33, all of which were free, and records the player's position, speed, counter and heading before the move |
| Lookahead.RevertStep | spe_ed/server/ai_jump.go:277-287 | revert restores position, speed, counter and heading from the record and zeroes the recorded cells only |
| Lookahead.ProgressThenRevert | spe_ed/server/ai_jump.go:187-287 | revert after progress gives back the board and the player exactly |
| Lookahead.ProgressOutcome | spe_ed/server/ai_jump.go:225-272 | a move crashes exactly on a speed out of 1..10 or when a step leaves the board or a non-hole step meets a non-zero cell; it jumps exactly when it does not crash and some hole step passes over a non-zero cell |
| Lookahead.ProgressTrail | spe_ed/server/ai_jump.go:241-270 | a surviving move keeps speed in 1..10, ends speed cells ahead and marks exactly its non-hole cells, which were all 0 |
| Lookahead.ProgressMatchesEngine | spe_ed/server/game.go:346-422 | when a look-ahead move survives, the engine accepts the same answer, moves the player to the same place and writes the player id where the look-ahead wrote −33 |
| Lookahead.AnswerAccepted | spe_ed/server/game.go:346-385 | an action that keeps the speed in range is applied by the engine exactly as the bots' steering step applies it |
| Lookahead.EngineMovesLikeProgress | spe_ed/server/game.go:389-422 | a move that survives in the look-ahead is a move the engine performs to the same position |
| Lookahead.ParseActionName | spe_ed/server/game.go:346-385 | the engine recognises every action name the bots send as that action |
| Lookahead.MarkArms | spe_ed/server/ai_jump.go:84-112 | one opponent's arms 1..speed+1 in the four axis directions become −100 where they are on the board, and nothing else changes |
| Lookahead.DeadZones | spe_ed/server/ai_jump.go:75-113 | a cell becomes −100 exactly when it lies on an arm of some active opponent in the iteration order; all other cells keep their value |
| Lookahead.DeadZonesCoverOpponents | spe_ed/server/ai_jump.go:75-113 | when the order lists every player, the marked cells are exactly the arms of all active opponents |
| Sensing.FreeRun | spe_ed/server/ai_largestfree.go:188-202 | the cells before the result along a ray are on the board and 0, and the cell at the result is not |
| Sensing.ClearRun | spe_ed/server/ai_meta.go:79-85 | a probe of n cells succeeds exactly when each of the first n cells along the ray is on the board and 0 |
| Sensing.LeftProbe | spe_ed/server/ai_meta.go:99-108 | the ray checked before turn_left points where turn_right turns |
| Sensing.RightProbe | spe_ed/server/ai_meta.go:130-139 | the ray checked before turn_right points where turn_left turns |
| Sensing.Escape | spe_ed/server/ai_meta.go:61-162 | the corrected escape ladder: slow_down if the speed−1 cells ahead are free, else turn_left if the speed cells in the turn_left direction are free, else turn_right if those in the turn_right direction are, else slow_down |
| Sensing.ClearMoveSurvives | spe_ed/server/ai_jump.go:225-272 | a move whose whole ray is free does not crash |
| Sensing.EscapeSurvives | spe_ed/server/ai_meta.go:61-162 | at speed 2..10 the corrected escape answer survives its move unless it is the last-resort slow_down |
| Sensing.EscapeAsWritten | spe_ed/server/ai_meta.go:95-162 | the ladder as written: slow_down if the speed−1 cells ahead are free, else turn_left if the speed cells in the turn_right direction are free, else turn_right if those in the turn_left direction are, else slow_down |
| Sensing.EscapeAsWrittenTurnsIntoWall | spe_ed/server/ai_meta.go:95-124 | on a concrete board the ladder as written turns left into the border although turning right was free |
| Sensing.ChooseHand | spe_ed/server/ai_supersnail.go:62-68 | the hand is kept once chosen, and the first coin flip chooses left exactly on heads |
| Sensing.FirstOpen | spe_ed/server/ai_supersnail.go:124-213 | the ladder answers the first action in preference order whose neighbour cell is free, and nothing exactly when none is |
| Sensing.SnailAction | spe_ed/server/ai_supersnail.go:124-214 | getSnailAction picks an action of the hand's ladder whose neighbour is free, and returns "" exactly when none of the three neighbours is free |
| Sensing.SnailPrefersFarSide | spe_ed/server/ai_supersnail.go:125-183 | a free right-hand neighbour always wins for hand left, and a free left-hand neighbour for hand right |
| Sensing.SnailActionSurvivesAtSpeedOne | spe_ed/server/ai_supersnail.go:124-214 | at speed 1 the snail's action never crashes |
| Sensing.InSmallArea | spe_ed/server/ai_supersnail.go:327-352 | a position is in a small area exactly when at most one of its four neighbours is open, where a cell off the board or holding 0 is open |
| JumpAI.RunPlan | spe_ed/server/ai_jump.go:291-303 | running a plan marks exactly the recorded cells with −33, and all of them were free |
| JumpAI.ExecPlan | spe_ed/server/ai_jump.go:289-303 | executePlan leaves the board as it found it |
| JumpAI.ExecPlanCons | spe_ed/server/ai_jump.go:291-303 | a plan passes exactly when no step crashes and some step jumps |
| JumpAI.FindPlan | spe_ed/server/ai_jump.go:151-183 | findPlan gives nothing for length ≤ 0, any plan it finds has 1..length actions, and board and player are as before the search |
| JumpAI.TryActions | spe_ed/server/ai_jump.go:151-183 | the loop over one level's actions returns board and player as it found them, and any plan it finds has 1..length+1 actions |
| JumpAI.FindPlanSound | spe_ed/server/ai_jump.go:151-183 | every plan findPlan returns passes executePlan |
| JumpAI.ExecPlanFirst | spe_ed/server/ai_jump.go:291-303 | the first step of a passing plan survives, and if it does not jump the rest of the plan passes from there |
| JumpAI.FindPlanComplete | spe_ed/server/ai_jump.go:151-183 | when each level tries every action, findPlan finds a plan whenever some plan of at most length actions passes |
| JumpAI.Horizon | spe_ed/server/ai_jump.go:126 | the plan horizon is in 1..6 and reaches exactly the next step count that is a hole round |
| JumpAI.NextPlan | spe_ed/server/ai_jump.go:115-139 | the plan used for the answer is never empty |
| JumpAI.NextPlanPasses | spe_ed/server/ai_jump.go:115-139 | the plan used either passes executePlan or is the single random answer |
| JumpAI.GetState | spe_ed/server/ai_jump.go:65-144 | an answer is sent exactly in a running game while active; otherwise the plan is kept |
| JumpAI.AnswerStartsPassingPlan | spe_ed/server/ai_jump.go:115-142 | the answer followed by the kept plan passes executePlan on the dead-zone board, unless it is the random answer with an empty plan |
| SuperRandomAI.Candidates | spe_ed/server/ai_superrandom.go:110-118 | the candidates start with turn_left, turn_right and change_nothing, contain slow_down exactly above speed 1 and speed_up exactly below speed 5, without repeats |
| SuperRandomAI.GetLengthAsWritten | spe_ed/server/ai_superrandom.go:156-188 | getLength as written keeps the board's size |
| SuperRandomAI.TryAsWritten | spe_ed/server/ai_superrandom.go:174-184 | one pass of the loop body as written keeps the board size |
| SuperRandomAI.LoopAsWritten | spe_ed/server/ai_superrandom.go:171-187 | the loop as written keeps the board size |
| SuperRandomAI.TryAgrees | spe_ed/server/ai_superrandom.go:174-184 | one pass as written finds the same value as the corrected pass, and leaves the state changed only when that value completes the full length and beats the best so far |
| SuperRandomAI.GetLength | spe_ed/server/ai_superrandom.go:156-188 | the corrected getLength returns a value in 0..max, 0 when max ≤ 0, and leaves board and player as it found them; SuperRandomAI.GetLengthIsBest and SuperRandomAI.GetLengthIsAttained show the value is the longest look-ahead of any candidate |
| SuperRandomAI.Try | spe_ed/server/ai_superrandom.go:174-184 | one candidate is worth 0 exactly when its move crashes, is worth at most max, and is reverted |
| SuperRandomAI.LengthLoop | spe_ed/server/ai_superrandom.go:171-187 | the loop never lowers the best length, never exceeds max, and restores the state; SuperRandomAI.LoopIsMax shows it returns the largest candidate value |
| SuperRandomAI.LoopIsMax | spe_ed/server/ai_superrandom.go:171-187 | no remaining candidate's value exceeds the loop's result, and the result is the best value so far or the value of one of those candidates |
| SuperRandomAI.LoopAttains | spe_ed/server/ai_superrandom.go:171-187 | the loop's result is the best value it started with, or the value of one of the remaining candidates, which the lemma names |
| SuperRandomAI.GetLengthIsBest | spe_ed/server/ai_superrandom.go:164-188 | getLength returns the longest possible path: no candidate action looks further ahead than its result |
| SuperRandomAI.GetLengthIsAttained | spe_ed/server/ai_superrandom.go:164-188 | the length getLength returns is 0 or the look-ahead of a candidate the lemma names, so together with GetLengthIsBest it is the maximum over the candidates |
| SuperRandomAI.AsWrittenFindsSameLength | spe_ed/server/ai_superrandom.go:156-188 | getLength as written finds the same length as the corrected one, and it leaves the state changed only when it found the full length |
| SuperRandomAI.GetLengthLeavesMarks | spe_ed/server/ai_superrandom.go:173-185 | on an empty 3 × 3 board getLength as written returns with a −33 cell left on the board |
| SuperRandomAI.Score | spe_ed/server/ai_superrandom.go:121-128 | a candidate's look-ahead value is at most 12 |
| SuperRandomAI.Select | spe_ed/server/ai_superrandom.go:121-136 | the winner is strictly better than every earlier value and at least as good as every later one; without a value above 0 nothing wins |
| SuperRandomAI.GetState | spe_ed/server/ai_superrandom.go:56-147 | an answer is sent exactly in a running game while active, and it is a candidate or the random answer |
| SuperRandomAI.AnswerLooksFurthest | spe_ed/server/ai_superrandom.go:106-143 | the answer survives its move and looks ahead at least as far as any candidate; the random answer is used only when no candidate has a positive look-ahead |
| SuperSnailAI.ProgressConsumes | spe_ed/server/ai_supersnail.go:223-307 | a surviving move at constant speed takes at least one free cell |
| SuperSnailAI.RollOut | spe_ed/server/ai_supersnail.go:98-105 | the inner loop records one revert per attempted move, all inside the board |
| SuperSnailAI.RollOutBounded | spe_ed/server/ai_supersnail.go:98-105 | the inner loop survives no more moves than there are free cells, so it ends |
| SuperSnailAI.RevertStack | spe_ed/server/ai_supersnail.go:321-325 | revertStack undoes the records last to first and keeps the board size |
| SuperSnailAI.RevertStackAppend | spe_ed/server/ai_supersnail.go:321-325 | undoing xs + ys undoes ys first and then xs |
| SuperSnailAI.RollOutReverts | spe_ed/server/ai_supersnail.go:89-105 | undoing the reverts of a roll-out gives back the state the roll-out started from |
| SuperSnailAI.Trial | spe_ed/server/ai_supersnail.go:92-105 | an alternative is worth 0 exactly when its own move crashes |
| SuperSnailAI.FirstBest | spe_ed/server/ai_supersnail.go:86-110 | the scan picks the first maximal value and nothing unless some value exceeds the start |
| SuperSnailAI.FirstBestOfThree | spe_ed/server/ai_supersnail.go:86-110 | the scan of three values in terms of the three values |
| SuperSnailAI.Rescue | spe_ed/server/ai_supersnail.go:85-110 | in a small area the answer is an alternative that survives its move and is tried longest, and there is none exactly when all three crash at once |
| SuperSnailAI.GetState | spe_ed/server/ai_supersnail.go:54-122 | the hand is chosen once; an answer is sent exactly in a running game, and it is never a speed change |
| SuperSnailAI.AgreesWithSnailOutsideSmallAreas | spe_ed/server/ai_supersnail.go:70-83 | when the snail move does not end in a small area, the super snail answers like SnailAI |
| SnailAI.TablesMatchTurns | spe_ed/server/ai_snail.go:63-174 | the ladder's side and ahead cells are the neighbours in the engine's turn_right, turn_left and straight directions |
| SnailAI.Ladder | spe_ed/server/ai_snail.go:63-178 | the ladder turns towards the far side of its hand exactly when that neighbour is free |
| SnailAI.LadderIsSnailAction | spe_ed/server/ai_snail.go:63-178 | the snail's choice equals getSnailAction, with "" replaced by change_nothing |
| SnailAI.GetState | spe_ed/server/ai_snail.go:46-180 | the hand is chosen once and kept; an answer is sent exactly in a running game |
| SnailAI.HandIsKept | spe_ed/server/ai_snail.go:54-60 | after the first state, later states do not change the hand |
| SnailAI.SnailSurvivesWhileItCan | spe_ed/server/ai_snail.go:63-178 | at speed 1 the snail's answer survives its move when some neighbour is free |
| LargestFreeAI.GetFree | spe_ed/server/ai_largestfree.go:188-202 | GetFree counts the consecutive free cells along the ray and is bounded by the distance to the board edge |
| LargestFreeAI.GetFreeIsFreeRun | spe_ed/server/ai_largestfree.go:188-202 | the count of free cells along a ray is unique |
| LargestFreeAI.Choose | spe_ed/server/ai_largestfree.go:97-174 | the chosen action has the maximal free count; ties go to change_nothing, then turn_left, then turn_right |
| LargestFreeAI.BoxedInGoesStraight | spe_ed/server/ai_largestfree.go:52-53 | with no free cell in any direction the answer is change_nothing |
| LargestFreeAI.RaysMatchTurns | spe_ed/server/ai_largestfree.go:98-173 | the left and right rays for each heading use the engine's turn tables |
| LargestFreeAI.GetState | spe_ed/server/ai_largestfree.go:43-178 | an answer is sent exactly in a running game while active, and no direction has more room on the dead-zone board |
| JumpingLargestFreeAI.Internal | spe_ed/server/ai_jumpinglargestfree.go:216-243 | the visited set only grows |
| JumpingLargestFreeAI.InternalFacts | spe_ed/server/ai_jumpinglargestfree.go:216-243 | newly visited cells are on the board, counted cells are free and newly visited, the count is current plus the number counted, and a cutoff bounds it by cutoff+1 |
| JumpingLargestFreeAI.SpreadFacts | spe_ed/server/ai_jumpinglargestfree.go:232-242 | the spread over the neighbours keeps the same counting facts |
| JumpingLargestFreeAI.InternalCutoff | spe_ed/server/ai_jumpinglargestfree.go:216-219 | with cutoff k the count equals the full count when that is at most k, and k+1 otherwise |
| JumpingLargestFreeAI.InternalConnected | spe_ed/server/ai_jumpinglargestfree.go:216-243 | every counted cell is joined to the start through counted cells |
| JumpingLargestFreeAI.SpreadConnected | spe_ed/server/ai_jumpinglargestfree.go:232-242 | every cell counted by the spread is joined to one of its start cells |
| JumpingLargestFreeAI.FreeSpaceConnected | spe_ed/server/ai_jumpinglargestfree.go:193-214 | each counted cell is free and counted once; the count is at most Width × Height, and at most cutoff+1 with a cutoff; JumpingLargestFreeAI.FreeSpaceIsRegion shows that without a cutoff the counted cells are exactly the free region |
| JumpingLargestFreeAI.CountedCellsAreConnected | spe_ed/server/ai_jumpinglargestfree.go:193-243 | every counted cell is reachable through counted cells from the player cell or one of its neighbours |
| JumpingLargestFreeAI.InternalComplete | spe_ed/server/ai_jumpinglargestfree.go:216-243 | without a cutoff the fill visits its cell if it is on the board, counts every free cell it newly visits, and has visited every on-board neighbour of every counted cell |
| JumpingLargestFreeAI.SpreadComplete | spe_ed/server/ai_jumpinglargestfree.go:232-242 | without a cutoff the spread visits all its on-board start cells, counts every free cell it newly visits, and keeps the neighbours of counted cells visited |
| JumpingLargestFreeAI.RouteCounted | spe_ed/server/ai_jumpinglargestfree.go:216-243 | when the neighbours of counted cells are all visited and every visited free cell is counted, a route of free cells from a counted cell stays counted |
| JumpingLargestFreeAI.CountedInRegion | spe_ed/server/ai_jumpinglargestfree.go:193-243 | every cell counted without a cutoff is a free cell joined through free cells to the player cell or a neighbour |
| JumpingLargestFreeAI.RegionCounted | spe_ed/server/ai_jumpinglargestfree.go:193-243 | every free cell joined through free cells to the player cell or a neighbour is counted without a cutoff |
| JumpingLargestFreeAI.FreeSpaceIsRegion | spe_ed/server/ai_jumpinglargestfree.go:193-243 | without a cutoff the counted cells are exactly the free cells joined through free cells to the player cell or one of its four neighbours, and the count is their number |
| JumpingLargestFreeAI.CutoffCountsTheSmallRegion | spe_ed/server/ai_jumpinglargestfree.go:193-219 | a cutoff of k gives the full count when it is at most k, and k+1 otherwise |
| JumpingLargestFreeAI.ThresholdSeesTheFullCount | spe_ed/server/ai_jumpinglargestfree.go:73 | the count with cutoff 51 is below 50 exactly when the full count is, that is exactly when the free region around the player has fewer than 50 cells |
| JumpingLargestFreeAI.GetState | spe_ed/server/ai_jumpinglargestfree.go:59-184 | below 50 connected free cells the JumpAI answers and is kept; else at speed above 1 the escape ladder answers; else the jump bot is dropped and LargestFreeAI answers |
| RandomSlowAI.WillCrashFrom | spe_ed/server/ai_randomslow.go:226-242 | the first step that is not clear decides: off the board is a sure crash, a −100 cell a possible crash, any other non-zero cell a sure crash, and no such step means no crash |
| RandomSlowAI.WillCrash | spe_ed/server/ai_randomslow.go:208-243 | willCrash reports no crash exactly when every step of the next move is clear |
| RandomSlowAI.WillCrashAgreesWithProgress | spe_ed/server/ai_randomslow.go:208-243 | for a turn or change_nothing, willCrash reports no crash exactly when the look-ahead move survives |
| RandomSlowAI.Apply | spe_ed/server/ai_randomslow.go:103-143 | applying an action is refused exactly on a speed out of range, and is otherwise the steering step |
| RandomSlowAI.Undo | spe_ed/server/ai_randomslow.go:156-186 | the undo switch keeps position, activity and counter; undoing a turn gives a heading the same turn maps back to the current one; undoing a speed change moves the speed back by one; change_nothing is undone by nothing |
| RandomSlowAI.UndoApply | spe_ed/server/ai_randomslow.go:103-186 | the undo after applying an action restores direction and speed |
| RandomSlowAI.Scan | spe_ed/server/ai_randomslow.go:145-201 | the answer is the first no-crash action; without one the last possible-crash action; without that the first action in the shuffled order |
| RandomSlowAI.ScanPicksFrom | spe_ed/server/ai_randomslow.go:145-201 | the answer is one of the tried actions |
| RandomSlowAI.GetState | spe_ed/server/ai_randomslow.go:45-202 | an answer is sent exactly in a running game, and it is never a speed change |
| RandomSlowAI.SafeAnswerSurvives | spe_ed/server/ai_randomslow.go:145-201 | a no-crash action survives its move on the dead-zone board |
| StupidAI.HeadsTurn | spe_ed/server/ai_stupid.go:65-74 | the rotation on heads is the engine's turn_left |
| StupidAI.TailsTurn | spe_ed/server/ai_stupid.go:91-101 | the rotation on tails, commented "Turn left", is the engine's turn_right |
| StupidAI.GetState | spe_ed/server/ai_stupid.go:44-117 | an answer is sent exactly in a running game; it is change_nothing exactly when the cell ahead is free, and never a speed change |
| StupidAI.StupidMovesToFreeNeighbour | spe_ed/server/ai_stupid.go:53-117 | a turn answer is the first-tried turn exactly when that neighbour is free, and whenever some neighbour is free the answer moves onto a free neighbour |
| MirrorAI.ObservedIsTheTurn | spe_ed/server/ai_mirror.go:104-131 | an observed heading change is turn_left exactly for the engine's turn_left, turn_right exactly for its turn_right, and change_nothing for no change or a reversal |
| MirrorAI.Mirror | spe_ed/server/ai_mirror.go:86-132 | a speed change of the target wins: speed_up only below 10, slow_down only above 1; the tracked speed follows the target, and the tracked heading follows it only when the speed is unchanged |
| MirrorAI.MirrorCopiesTurns | spe_ed/server/ai_mirror.go:104-131 | when headings agree before, the mirrored answer makes the bot face where the target now faces, unless the target reversed |
| MirrorAI.Others | spe_ed/server/ai_mirror.go:67-72 | the candidate targets are exactly the active players other than the bot |
| MirrorAI.GetState | spe_ed/server/ai_mirror.go:50-137 | nothing is sent outside a running game or when inactive; an answer goes with an active target; a vanished target id is an error |
| MirrorAI.NewTargetIsAnActiveOpponent | spe_ed/server/ai_mirror.go:59-82 | a new target is an active opponent, its speed and heading are recorded and the answer is change_nothing; no target can be drawn exactly when no opponent is active |
| MetaAI.Delegate | spe_ed/server/ai_meta.go:164-169 | the sub bot answers a turn or change_nothing, or nothing, and only LargestFreeAI can stay silent in a running game |
| MetaAI.GetState | spe_ed/server/ai_meta.go:47-171 | without a sub bot at speed above 1 the escape ladder answers and no bot is kept; otherwise a drawn or kept sub bot answers; nothing is sent outside a running game |
| MetaAI.DrawnBotIsKept | spe_ed/server/ai_meta.go:56-169 | a drawn sub bot answers later states unless it is reset |
| MetaAI.AnswerNotSpeedUp | spe_ed/server/ai_meta.go:47-171 | speed_up is never sent, neither by the escape ladder nor by a sub bot |
| MetaAI.NeverFaster | spe_ed/server/ai_meta.go:47-171 | no answer raises the speed |
| MetaAI.EscapeAnswerSurvives | spe_ed/server/ai_meta.go:61-162 | the escape answer survives its move unless it is the last-resort slow_down |
| ChristmasAI.ScriptsUseKnownSymbols | spe_ed/server/ai_christmas.go:31-36 | each of the four scripts is non-empty and uses only C, L, R, '+' and '-' |
| ChristmasAI.SymbolAction | spe_ed/server/ai_christmas.go:74-87 | C, c, N and n mean change_nothing, L and l turn_left, R and r turn_right, '+' speed_up, '-' slow_down, and any other symbol sends nothing |
| ChristmasAI.KnownSymbolsAct | spe_ed/server/ai_christmas.go:74-87 | every symbol of the scripts sends an action |
| ChristmasAI.Select | spe_ed/server/ai_christmas.go:64-66 | the script is chosen once, from the four scripts |
| ChristmasAI.GetState | spe_ed/server/ai_christmas.go:56-91 | while running and active the counter advances by one per state and the symbol at the counter is sent; after the script change_nothing is sent |
| ChristmasAI.ScriptIsKept | spe_ed/server/ai_christmas.go:64-66 | after the first state the chosen script never changes, and it uses only known symbols |
| ChristmasAI.PlayFollowsScript | spe_ed/server/ai_christmas.go:56-91 | over a run of running, active states the answers are the script from the counter on, then change_nothing |
| ChristmasAI.PlaySendsActions | spe_ed/server/ai_christmas.go:74-91 | with one of the scripts drawn, every answer over such a run is an action |
| HeartAI.ScriptShape | spe_ed/server/ai_heart.go:28 | the heart script has 25 actions, all turns or change_nothing |
| HeartAI.Scripted | spe_ed/server/ai_heart.go:57-61 | the action for counter n is the n-th script action, and change_nothing past the end |
| HeartAI.GetState | spe_ed/server/ai_heart.go:47-65 | an answer is sent exactly while running and active; the counter rises by one only while the script lasts |
| HeartAI.PlayFollowsScript | spe_ed/server/ai_heart.go:47-65 | over a run of running, active states the answers are the script from the counter on, then change_nothing |
| HeartAI.PlayCounter | spe_ed/server/ai_heart.go:55-62 | over such a run the counter rises once per state and stops at the script's length (25 for the heart) |

## Left out

- The round input loop, spe_ed/server/game.go:242-342: the select over six channels, the deadlines, context cancellation and the grace period. This is concurrency and wall-clock time. A round receives a finished answer vector instead.
- Mutexes, the answer channels, the nil-channel guard at the top of every bot, and the non-blocking select sends. A bot's answer is the returned `Option<Action>`.
- Randomness: `rand.Intn`, `rand.Shuffle` and the float coin flips are parameters. This covers board sides, start offsets, the hand or turn coin, the MetaAI reset chance and sub bot draw, script choice, pool shuffle, pseudonym words, and the shuffled candidate orders.
- Go map iteration order is an explicit `order` parameter.
- The shuffle of `quarterSelect` at spe_ed/server/game.go:144-145 is never read and is left out.
- RandomAI and BadRandomAI are not part of this model. Where JumpAI and SuperRandomAI call RandomAI, its answer is the opaque parameter `fallback`.
- The `Action*` constants and `IsValidAction` are not part of this model. The five action names used are turn_left, turn_right, change_nothing, speed_up and slow_down.
- HeartAI.GetState reads its script from a parameter rather than from the package constant; the heart bot runs with `HeartActions`.
- Cells are `int8` in the source and unbounded integers here. Ids, −1, −33 and −100 all fit in `int8`.
- Engine.InitGame: the error return of `RunGame`, spe_ed/server/game.go:125-130, is not modelled. After `setMaxPlayer`, `RunGame` returns −100 and "not enough player" when numberPlayer differs from MaxPlayer. The doc comment of `RunGame`, spe_ed/server/game.go:104, asks callers to check `IsReady` first, and `Lobby.IsReady` models that check. InitGame starts from any map of at most six players and never fails.
- Engine.QuarterBase: quarter 7's start area, spe_ed/server/game.go:178-180, is below the board. It would be used only by an eighth player, and a game has at most six, so the model uses the row-major formula for it. `Engine.QuarterSevenOutsideBoard` states the written values.
- The file reading in `InitKeys` is left out, as are `InitPseudonyms`, the JSON persistence, the 10-minute timer and the 14-day interval check in `worker`. Lines, dictionaries and draws are given as values.
- Registry.GetAINames: `sort.Strings` compares bytes, while the model compares `char` code points. The two agree on the ASCII bot names.
- Registry.GetAI: the Go panic for a too-large number, and the `make` panic for a negative one, are an `Err` result.
- MirrorAI.GetState: the nil dereference panic for a target id missing from the map, and the `rand.Intn(0)` panic when no opponent is active, are `Err` results.
- SuperSnailAI.GetState, SuperSnailAI.RollOut and SuperSnailAI.Trial require speed ≥ 1. The source does not check this: the state is sent to inactive players too (spe_ed/server/game.go:512-519), and slow_down at speed 1 lowers the speed to 0 before the player is invalidated (spe_ed/server/game.go:376-379). The bound holds because the speed of a player driven by SuperSnailAI only changes through its own answers. SuperSnailAI never sends a speed change, and when MetaAI drives it, the escape ladder sends slow_down only above speed 1. At speed 0 the source's roll-out, spe_ed/server/ai_supersnail.go:98-105, would never crash and so never end. The model does not cover that case.
- SuperRandomAI.GetState uses the corrected getLength described under Findings. The lengths it compares are those of the code as written (SuperRandomAI.AsWrittenFindsSameLength), but the −33 marks the source leaves on the state it was handed are not modelled.
- MetaAI.GetState answers with the corrected ladder Sensing.Escape. The source, spe_ed/server/ai_meta.go:95-155, uses the swapped turn probes that Sensing.EscapeAsWritten models (see Findings). At speed above 1 without a sub bot, the model's answer is the source's answer only when the two ladders agree.
- JumpingLargestFreeAI.GetState answers with the corrected ladder Sensing.Escape. The source, spe_ed/server/ai_jumpinglargestfree.go:112-172, uses the same swapped probes as Sensing.EscapeAsWritten.
- The endpoint, player, stats, log and main files, the browser client, the Python example client and EndRound are not part of this model. They are network I/O, UI or a constant sender.

## Findings

| source | as written | input that shows it | evidently intended | confidence | as-written member | corrected member |
|---|---|---|---|---|---|---|
| spe_ed/server/ai_meta.go:99-108,130-139 (also ai_jumpinglargestfree.go:116-125,147-156) | the ray checked before sending turn_left uses the turn_right step for every heading, and the ray checked before turn_right uses the turn_left step | 4 × 3 board with rows `0 1 0 0`, `0 1 0 0`, `0 0 0 0`, player at (1,1) heading up with speed 2: the ladder sends turn_left into the border, although turning right is free | each turn is sent only when its own direction is free | high, not executed | Sensing.EscapeAsWrittenTurnsIntoWall | Sensing.EscapeSurvives |
| spe_ed/server/ai_superrandom.go:173-185 | `break` leaves the loop before `sr.revert`, so a full-length search returns with its −33 cells still on the board and the player still moved | empty 3 × 3 board, player at (1,1) heading up with speed 1, `getLength(1)`: turn_left reaches the full length and returns with (0,1) still −33 | getLength leaves the board and the player as it found them | medium, not executed; the lengths found are unchanged (SuperRandomAI.AsWrittenFindsSameLength) | SuperRandomAI.GetLengthLeavesMarks | SuperRandomAI.GetLength |
