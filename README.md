# chat_game: a verified model of the scene and conversation logic

`chat_game` is a text adventure driven by a language model. A scenario file
names a player, a roster of NPC personas and a list of episodes, each holding
a list of scenes. Every scene has a goal ("target") for the player and the
NPC it is played against (`npcs[0]`). While a scene runs, the player types a
line and the NPC, played by the model, answers. A second prompt asks the model
whether the player has reached the goal. The answer counts as met when the
lower-cased reply contains `yes`. When it is met, the cursor (episode index,
scene index) moves to the next scene, rolling over into the next episode.
The conversation log is cleared and the next scene starts. After the last
scene of the last episode the game is over.

This project models that logic in Dafny and proves its properties:

- `history.dfy` (module `History`): the conversation log (`CustomHistoryManager`).
  It is a class holding a sequence of `(role, content)` turns. Rendering gives
  one `role: content` line per turn joined by newlines. For a non-empty log in
  which no role or content holds a newline, splitting the text at newlines
  gives the lines back.
- `verdict.dfy` (module `Verdict`): the verdict `"yes" in response.lower()`, as a
  window scan over the lower-cased text. It is proved equal to "`yes` occurs in
  any mix of cases at some index".
- `scenario.dfy` (module `Scenario`): the scenario as immutable data, the NPC
  table `{npc.name: npc}` (the last definition of a name wins), and the shape
  the game demands of a scenario before it can run.
- `navigator.dfy` (module `Navigator`): the cursor and its advance rule.
  `advance_scene` tests `>=` at main.py:128 and main.py:133, and
  `Navigator.Next` and `Navigator.Finished` use the same tests.
  - It covers the number of scenes remaining, which is the measure that makes
    the game end.
  - It covers the walk of cursors a game visits: strictly increasing, skipping
    no scene, and exactly one cursor per scene.
- `scene_runner.dfy` (module `SceneRunner`): the language model as an `Oracle`
  of two functions, and `RunScene`, the effect of one scene's turn loop on the
  log. Per pass, this module proves:
  - the player's turn holds the input;
  - the NPC's turn holds the reply to the log so far;
  - the judge says yes only after the last pass of a scene whose goal was met.
- `game.dfy` (module `ChatGame`): the class `Game`, with its cursor fields and
  its log. It has:
  - `AdvanceScene`, which moves the cursor and clears the log;
  - `PlayScene`, the `while not target_completed` loop;
  - `StartGame`, an outer loop that replaces the source's
    `play_scene` → `advance_scene` → `play_scene` recursion.

  Each method is proved against a function: `Next`, `RunScene` and `PlayFrom`.

The player's typed lines are a finite sequence of strings. Running out of
input plays the part of the console's end of input: the scene, and with it the
game, stops unfinished. The scenes read the input one after another, each from
where the previous one stopped. When every scene's goal is judged met before
the input runs out, the game plays each scene of each episode exactly once, in
order, and finishes.

## Model

| member | source | states |
|---|---|---|
| `History.HistoryManager.constructor` | main.py:12-13 | A new manager holds no turns. |
| `History.HistoryManager.AddMessage` | main.py:15-16 | Adds exactly one turn `(role, content)` at the end and leaves the earlier turns unchanged. The rendered text gains one line after a newline, or becomes that single line when the log was empty. |
| `History.Render` | main.py:19 | The `"\n".join` of the `role: content` lines, defined one turn at a time. The text is `""` exactly when there are no turns. |
| `History.HistoryManager.GetHistory` | main.py:18-19 | The rendered text is empty exactly when the log is empty. |
| `History.RenderAppend` | main.py:18-19 | Rendering follows insertion order. A log with one more turn renders as the old text, a newline, then the new `role: content` line. There is never a trailing separator. |
| `History.SplitRender` | main.py:18-19 | The text can be read back: for a non-empty log of turns free of newlines, splitting it at `"\n"` gives each turn's `role: content` line, in insertion order, and nothing more. |
| `History.RenderNewlines` | main.py:18-19 | A non-empty log of turns free of newlines renders with exactly one newline fewer than it has turns, the count of separators between neighbouring lines. |
| `History.HistoryManager.ClearHistory` | main.py:21-22 | Afterwards the log is empty and renders as `""`. |
| `Verdict.ContainsIff` | main.py:67 | The substring scan behind `in` finds the needle exactly when the needle occurs at some index of the text. |
| `Verdict.SaysYes` | main.py:67 | `"yes" in response.lower()`, as a scan of the lower-cased response. It holds exactly when the three letters y, e, s occur consecutively in the response, each in either case. |
| `Verdict.SaysYesIgnoresCase` | main.py:67 | Lower-casing the response first never changes the verdict. |
| `Verdict.SaysYesAnywhere` | main.py:67 | Any text before or after an affirmative response leaves it affirmative. The test is a substring search, not a parse. |
| `Verdict.SaysYesAffirmative` | main.py:67 | `"Yes, completed"` and `"YES"` count as met. |
| `Verdict.SaysYesNegative` | main.py:67 | `"no"` and `"No, not yet"` do not count as met. |
| `Verdict.SaysYesYesterday` | main.py:67 | `"yesterday"` counts as met. This is the known false positive of the substring test. |
| `Scenario.NpcTable` | main.py:82-85 | The dict comprehension, built definition by definition so that later entries overwrite earlier ones. Every persona is filed under its own name. |
| `Scenario.NpcTableLookup` | main.py:82-85 | A name is a key of the NPC table exactly when some NPC definition carries it. It maps to the last definition with that name. |
| `Navigator.Next` | main.py:126-130 | The advanced cursor is strictly after the old one in lexicographic order. With no empty episode, it names an existing scene or is game over. It is game over exactly after the last scene of the last episode. |
| `Navigator.NextRemaining` | main.py:126-130 | Each advance from an existing scene uses up exactly one of the remaining scenes. |
| `Navigator.NextSkipsNothing` | main.py:126-130 | No existing scene lies strictly between a scene and the one the advance moves to. |
| `Navigator.Walk` | main.py:123-137 | The cursors the game plays from `c` on, in order: `c`, then the walk from `Next(c)`, until game over. There are exactly as many as there are scenes remaining from `c`. |
| `Navigator.WalkOrdered` | main.py:125-137 | The cursors a game visits from `c` start at `c`, name existing scenes not before `c`, and strictly increase, so no scene is visited twice. |
| `Navigator.WalkComplete` | main.py:125-137 | Every existing scene from `c` on is visited. |
| `Navigator.WalkFromStart` | main.py:125-137 | From the first scene the game visits exactly the existing scenes, and there are exactly as many visits as scenes in all the episodes. |
| `ChatGame.Game.AdvanceScene` | main.py:125-137 | Moves the cursor to `(e, s + 1)` while the episode has another scene and to `(e + 1, 0)` otherwise. The cursor strictly increases, and the log is empty afterwards in every case. Game over is reported exactly when the episode index reaches the episode count. Otherwise, with no empty episode, the cursor names an existing scene. |
| `SceneRunner.CheckUserTargetCompleted` | main.py:57-67 | The judge's answer about the goal and the rendered log counts as met exactly when it holds y, e, s consecutively, each in either case. |
| `SceneRunner.Exchange` | main.py:103-117 | One pass adds exactly two turns and keeps the earlier ones: the player's line, then the NPC's reply to the log that already holds that line. |
| `SceneRunner.RunScene` | main.py:101-120 | The turn loop reads inputs one per pass, never more than it is given. It adds exactly two turns per pass and keeps the turns it started with. It stops short of a yes only when the input has run out. |
| `SceneRunner.PassAt` | main.py:101-120 | Pass `i` adds the player's turn with input `i`, then the NPC's turn with its reply to the log up to and including that player turn. The judge, asked right after, says yes exactly on the last pass of a scene whose goal was met. |
| `SceneRunner.SceneFromEmpty` | main.py:97-122 | A scene run from an empty log gives a transcript of 2N turns for N inputs read. Player and NPC turns alternate, starting with the player, and the player turns hold the inputs in order. Each NPC turn answers everything before it. The judge says yes only after the final reply, and only if the scene ended because of it. Scripted start and end dialogues never enter the log. |
| `ChatGame.Game.PlayScene` | main.py:91-123 | The loop leaves the log, the count of inputs read and the completion flag exactly as `RunScene` describes for the scene under the cursor. |
| `ChatGame.PlayFrom` | main.py:87-137 | A run yields one transcript per scene played. A run that did not reach game over played at least one scene. |
| `ChatGame.PlayFromWalk` | main.py:123-137 | The scenes a run plays are a prefix of the navigator's walk from its start. A finished run plays the whole walk. |
| `ChatGame.PlayFromReads` | main.py:101-137 | The scenes of a run read the input one after another, each from where the previous one stopped. The player lines of all the transcripts, in order, are a prefix of the input. They are the whole input when the run stopped because the input ran out. |
| `ChatGame.PlayFromScene` | main.py:91-137 | The `k`-th scene of a run names an existing scene. Its transcript is a conversation with that scene's own player and NPC, started from an empty log, so no log leaks between scenes. Every scene the run moved past was judged met on its own transcript. |
| `ChatGame.PlayFromStart` | main.py:87-137 | A finished run from the first scene has played the whole walk: every scene once, in order, as many as there are scenes. Every scene played is a conversation of its own cast. The player lines of the run are a prefix of the input, and all of it when the input ran out. |
| `ChatGame.Game.constructor` | main.py:71-85 | A new game starts at episode 0, scene 0, with an empty log. Its player name and NPC table are the scenario's. |
| `ChatGame.Game.StartGame` | main.py:87-137 | Plays from the first scene until game over or end of input, giving exactly the run `PlayFrom` describes. A finished game played every scene of every episode exactly once, in order, and ends past the last episode with an empty log. A game that stopped for lack of input stops on the last scene it played, and its log is that scene's transcript. Every scene's transcript is a conversation of its own cast. The player lines of all the transcripts, in order, are a prefix of the input, and all of it when the game stopped for lack of input. |

## Left out

- The language model (`Tongyi`, `BaseRole.invoke`, the network) is an `Oracle` of two total functions.
  - The NPC's reply depends only on the persona and the rendered log.
  - The judge's answer depends only on the target and the rendered log.
  - The real model samples at temperature 1. The model fixes one answer per prompt, so the proved properties hold for every such choice of answers.
- Prompt templating (`PromptTemplate`, the persona and judge prompt wording) is left out. The oracle receives the pieces the template would be filled from.
- Loading the scenario from JSON, `dotenv` and file paths are left out. The scenario is an immutable `Config` value.
- `print` and `input` console I/O and the `debug` flag are left out.
  - Start and end dialogues and the episode and scene captions are carried in the data but never shown.
  - The player's lines are a finite sequence. Their end stands for end of input; the source would raise `EOFError` there.
- `SceneRunner.RunScene`: the source's loop has no cap and may never end. The model follows it only over a finite input, so a scene that is never met is seen only up to the point where the input runs out.
- `ChatGame.Game.AdvanceScene`: it does not itself start the next scene as the source does. The source's mutual recursion between `play_scene` and `advance_scene` is the outer loop of `ChatGame.Game.StartGame`, with the number of remaining scenes as its measure. In the source each scene adds two stack frames (main.py:123, main.py:137), so under Python's default recursion limit of 1000 a scenario of several hundred scenes ends in `RecursionError`. The model's loop has no such limit.
- `ChatGame.Game.StartGame`, `ChatGame.Game.PlayScene`: the crashing paths are preconditions, not modelled errors. They are an empty episode list, an empty episode, a scene without NPCs, and a first NPC missing from the table. In each case the source raises `IndexError` or `KeyError` and the game stops.
- `Verdict.SaysYes`: `lower()` is modelled for ASCII capitals only. Python's Unicode case mapping of other characters is not modelled.
