/**
 * The game: a progress cursor over the scenario's episodes and scenes, one
 * conversation log, and the loop that plays the scene under the cursor
 * until its goal is judged met and then advances. Completing a scene
 * starts the next one at once, until the cursor runs past the last episode.
 */
module ChatGame {
  import opened History
  import opened Scenario
  import opened Navigator
  import opened SceneRunner

  /** The scene under cursor `c`. */
  function SceneAt(cfg: Config, c: Cursor): Scene
    requires InRange(cfg.episodes, c)
  {
    cfg.episodes[c.episode].scenes[c.scene]
  }

  /** Who talks in the scene under `c`: the player, and the scene's first NPC as found in the NPC table. */
  function SetupAt(cfg: Config, c: Cursor): Setup
    requires WellFormed(cfg) && InRange(cfg.episodes, c)
  {
    var scene := SceneAt(cfg, c);
    assert HasCast(scene, NpcTable(cfg.npcs));
    Setup(cfg.playerName, scene.npcs[0], NpcTable(cfg.npcs)[scene.npcs[0]], scene.target)
  }

  /**
   * What a game run shows: the scenes it played in order, each scene's
   * log when its loop ended, and whether it reached game over (false: the
   * player's input ran out inside the last scene listed).
   */
  datatype GameResult = GameResult(visited: seq<Cursor>, transcripts: seq<seq<Turn>>, finished: bool)

  /**
   * The game played from cursor `c` on: the scene under `c` runs from an
   * empty log; if its goal is met, the rest of the game runs from the next
   * cursor over the inputs the scene did not read.
   */
  function PlayFrom(cfg: Config, c: Cursor, inputs: seq<string>, oracle: Oracle): (g: GameResult)
    requires WellFormed(cfg)
    requires InRange(cfg.episodes, c) || Finished(cfg.episodes, c)
    ensures |g.transcripts| == |g.visited|
    ensures !g.finished ==> |g.visited| > 0
    decreases Remaining(cfg.episodes, c)
  {
    if Finished(cfg.episodes, c) then GameResult([], [], true)
    else
      var r := RunScene(SetupAt(cfg, c), oracle, [], inputs);
      if !r.completed then GameResult([c], [r.history], false)
      else
        NextRemaining(cfg.episodes, c);
        var rest := PlayFrom(cfg, Next(cfg.episodes, c), inputs[r.used..], oracle);
        GameResult([c] + rest.visited, [r.history] + rest.transcripts, rest.finished)
  }

  /**
   * A game run follows the navigator's walk: the scenes it plays are the
   * walk from `c` or a non-empty prefix of it ending in the scene where the
   * input ran out, and a finished game has played the whole walk.
   */
  lemma {:induction false} PlayFromWalk(cfg: Config, c: Cursor, inputs: seq<string>, oracle: Oracle)
    requires WellFormed(cfg)
    requires InRange(cfg.episodes, c) || Finished(cfg.episodes, c)
    ensures var g := PlayFrom(cfg, c, inputs, oracle);
      && g.visited <= Walk(cfg.episodes, c)
      && (g.finished ==> g.visited == Walk(cfg.episodes, c))
    decreases Remaining(cfg.episodes, c)
  {
    if !Finished(cfg.episodes, c) {
      NextRemaining(cfg.episodes, c);
      var r := RunScene(SetupAt(cfg, c), oracle, [], inputs);
      if r.completed {
        PlayFromWalk(cfg, Next(cfg.episodes, c), inputs[r.used..], oracle);
      }
    }
  }

  /**
   * The first scene of a run: it is the scene under `c`, its transcript is
   * that scene's loop run from an empty log, and the run goes past it
   * exactly when its goal was met.
   */
  lemma PlayFromHead(cfg: Config, c: Cursor, inputs: seq<string>, oracle: Oracle, g: GameResult)
    requires WellFormed(cfg)
    requires InRange(cfg.episodes, c) || Finished(cfg.episodes, c)
    requires g == PlayFrom(cfg, c, inputs, oracle)
    requires |g.visited| > 0
    ensures InRange(cfg.episodes, c) && g.visited[0] == c
    ensures var r := RunScene(SetupAt(cfg, c), oracle, [], inputs);
      g.transcripts[0] == r.history && (0 < |g.visited| - 1 || g.finished <==> r.completed)
  {
  }

  /** After a met first scene, the run goes on as the run from the next cursor over the unread input. */
  lemma PlayFromStep(cfg: Config, c: Cursor, inputs: seq<string>, oracle: Oracle, g: GameResult, k: nat)
    requires WellFormed(cfg)
    requires InRange(cfg.episodes, c) || Finished(cfg.episodes, c)
    requires g == PlayFrom(cfg, c, inputs, oracle)
    requires 0 < k < |g.visited|
    ensures InRange(cfg.episodes, c)
    ensures var r := RunScene(SetupAt(cfg, c), oracle, [], inputs);
      && r.completed
      && var rest := PlayFrom(cfg, Next(cfg.episodes, c), inputs[r.used..], oracle);
      && g.visited[k] == rest.visited[k - 1]
      && g.transcripts[k] == rest.transcripts[k - 1]
      && g.finished == rest.finished
      && |g.visited| == |rest.visited| + 1
  {
    NextRemaining(cfg.episodes, c);
  }

  /**
   * No log leaks between scenes: the transcript of the `k`-th scene played
   * is a conversation of that scene's own player and NPC, started from an
   * empty log, and every scene the game moved past was judged met on its
   * own transcript.
   */
  lemma {:induction false} PlayFromScene(cfg: Config, c: Cursor, inputs: seq<string>, oracle: Oracle, g: GameResult, k: nat)
    requires WellFormed(cfg)
    requires InRange(cfg.episodes, c) || Finished(cfg.episodes, c)
    requires g == PlayFrom(cfg, c, inputs, oracle)
    requires k < |g.visited|
    ensures InRange(cfg.episodes, g.visited[k])
    ensures Conversation(SetupAt(cfg, g.visited[k]), oracle, g.transcripts[k], k < |g.visited| - 1 || g.finished)
    decreases k
  {
    if k == 0 {
      PlayFromHead(cfg, c, inputs, oracle, g);
      SceneFromEmpty(SetupAt(cfg, c), oracle, inputs);
    } else {
      PlayFromStep(cfg, c, inputs, oracle, g, k);
      var r := RunScene(SetupAt(cfg, c), oracle, [], inputs);
      NextRemaining(cfg.episodes, c);
      var rest := PlayFrom(cfg, Next(cfg.episodes, c), inputs[r.used..], oracle);
      PlayFromScene(cfg, Next(cfg.episodes, c), inputs[r.used..], oracle, rest, k - 1);
    }
  }

  /** A run whose first scene's input runs out before its goal is met plays that one scene and stops. */
  lemma PlayFromUnmet(cfg: Config, c: Cursor, inputs: seq<string>, oracle: Oracle)
    requires WellFormed(cfg) && InRange(cfg.episodes, c)
    requires !RunScene(SetupAt(cfg, c), oracle, [], inputs).completed
    ensures PlayFrom(cfg, c, inputs, oracle) ==
      GameResult([c], [RunScene(SetupAt(cfg, c), oracle, [], inputs).history], false)
  {
  }

  /** A run whose first scene's goal is met plays that scene, then the run from the next cursor over the unread input. */
  lemma PlayFromMet(cfg: Config, c: Cursor, inputs: seq<string>, oracle: Oracle)
    requires WellFormed(cfg) && InRange(cfg.episodes, c)
    requires RunScene(SetupAt(cfg, c), oracle, [], inputs).completed
    ensures NoEmptyEpisode(cfg.episodes)
    ensures var r := RunScene(SetupAt(cfg, c), oracle, [], inputs);
      PlayFrom(cfg, c, inputs, oracle) ==
        Prepend([c], [r.history], PlayFrom(cfg, Next(cfg.episodes, c), inputs[r.used..], oracle))
  {
    NextRemaining(cfg.episodes, c);
  }

  /** The player's lines of a run, scene after scene. */
  function Said(transcripts: seq<seq<Turn>>): seq<string>
  {
    if transcripts == [] then [] else PlayerLines(transcripts[0]) + Said(transcripts[1..])
  }

  /**
   * The scenes of a run read the player's input one after another, each
   * from where the previous one stopped: the player's lines of all its
   * transcripts, in order, are a prefix of the input, and all of it when
   * the run stopped because the input ran out.
   */
  lemma {:induction false} PlayFromReads(cfg: Config, c: Cursor, inputs: seq<string>, oracle: Oracle, g: GameResult)
    requires WellFormed(cfg)
    requires InRange(cfg.episodes, c) || Finished(cfg.episodes, c)
    requires g == PlayFrom(cfg, c, inputs, oracle)
    ensures Said(g.transcripts) <= inputs
    ensures !g.finished ==> Said(g.transcripts) == inputs
    decreases Remaining(cfg.episodes, c)
  {
    if !Finished(cfg.episodes, c) {
      var s := SetupAt(cfg, c);
      var r := RunScene(s, oracle, [], inputs);
      ScenePlayerLines(s, oracle, inputs);
      SaidCons(r.history, []);
      if !r.completed {
        PlayFromUnmet(cfg, c, inputs, oracle);
        assert [r.history] + [] == g.transcripts;
        assert inputs[..r.used] == inputs;
      } else {
        PlayFromMet(cfg, c, inputs, oracle);
        NextRemaining(cfg.episodes, c);
        var unread := inputs[r.used..];
        var rest := PlayFrom(cfg, Next(cfg.episodes, c), unread, oracle);
        PlayFromReads(cfg, Next(cfg.episodes, c), unread, oracle, rest);
        SaidCons(r.history, rest.transcripts);
        assert g.transcripts == [r.history] + rest.transcripts;
        PrefixAppend(inputs, r.used, Said(rest.transcripts));
      }
    }
  }

  lemma SaidCons(t: seq<Turn>, ts: seq<seq<Turn>>)
    ensures Said([t] + ts) == PlayerLines(t) + Said(ts)
  {
    assert ([t] + ts)[1..] == ts;
  }

  /** What follows the first `k` items, or a prefix of it, extends them to a prefix of the whole. */
  lemma PrefixAppend(whole: seq<string>, k: nat, p: seq<string>)
    requires k <= |whole| && p <= whole[k..]
    ensures whole[..k] + p <= whole
    ensures p == whole[k..] ==> whole[..k] + p == whole
  {
    assert whole[..k] + p == whole[..k + |p|];
  }

  /**
   * Every scene of a run is a conversation of that scene's own player and
   * NPC, started from an empty log; every scene but the last, and the last
   * too when the run finished, was judged met on its own transcript.
   */
  ghost predicate ScenesPlayed(cfg: Config, oracle: Oracle, visited: seq<Cursor>, transcripts: seq<seq<Turn>>, finished: bool)
    requires WellFormed(cfg)
  {
    && |transcripts| == |visited|
    && forall k :: 0 <= k < |visited| ==>
         InRange(cfg.episodes, visited[k]) &&
         Conversation(SetupAt(cfg, visited[k]), oracle, transcripts[k], k < |visited| - 1 || finished)
  }

  /**
   * A run from the first scene: every scene it played is a conversation of
   * that scene's own cast, and a finished run has played every scene of
   * every episode exactly once, in order.
   */
  lemma PlayFromStart(cfg: Config, inputs: seq<string>, oracle: Oracle, g: GameResult)
    requires WellFormed(cfg)
    requires g == PlayFrom(cfg, Cursor(0, 0), inputs, oracle)
    ensures g.finished ==> g.visited == Walk(cfg.episodes, Cursor(0, 0))
    ensures g.finished ==> |g.visited| == TotalScenes(cfg.episodes)
    ensures Said(g.transcripts) <= inputs
    ensures !g.finished ==> Said(g.transcripts) == inputs
    ensures ScenesPlayed(cfg, oracle, g.visited, g.transcripts, g.finished)
  {
    PlayFromWalk(cfg, Cursor(0, 0), inputs, oracle);
    WalkFromStart(cfg.episodes, Cursor(0, 0));
    PlayFromReads(cfg, Cursor(0, 0), inputs, oracle, g);
    forall k | 0 <= k < |g.visited|
      ensures InRange(cfg.episodes, g.visited[k])
      ensures Conversation(SetupAt(cfg, g.visited[k]), oracle, g.transcripts[k], k < |g.visited| - 1 || g.finished)
    {
      PlayFromScene(cfg, Cursor(0, 0), inputs, oracle, g, k);
    }
  }

  /** Let the first moves of a run, already made, precede the rest of it. */
  function Prepend(visited: seq<Cursor>, transcripts: seq<seq<Turn>>, g: GameResult): GameResult
  {
    GameResult(visited + g.visited, transcripts + g.transcripts, g.finished)
  }

  lemma PrependNothing(g: GameResult)
    ensures Prepend([], [], g) == g
  {
    assert [] + g.visited == g.visited && [] + g.transcripts == g.transcripts;
  }

  lemma PrependTwice(v1: seq<Cursor>, t1: seq<seq<Turn>>, v2: seq<Cursor>, t2: seq<seq<Turn>>, g: GameResult)
    ensures Prepend(v1, t1, Prepend(v2, t2, g)) == Prepend(v1 + v2, t1 + t2, g)
  {
    assert v1 + (v2 + g.visited) == (v1 + v2) + g.visited;
    assert t1 + (t2 + g.transcripts) == (t1 + t2) + g.transcripts;
  }

  class Game {
    const config: Config
    const userName: string
    const npcs: map<string, NpcDef>
    const historyManager: HistoryManager
    var currentEpisode: nat
    var currentScene: nat

    /** The progress cursor. */
    function Position(): Cursor
      reads this
    {
      Cursor(currentEpisode, currentScene)
    }

    /** The player's name and the NPC table are the scenario's. */
    ghost predicate Valid()
    {
      userName == config.playerName && npcs == NpcTable(config.npcs)
    }

    /** A new game: at the first scene of the first episode, with an empty log. */
    constructor (config: Config)
      ensures Valid() && this.config == config
      ensures Position() == Cursor(0, 0)
      ensures fresh(historyManager) && historyManager.history == []
    {
      this.config := config;
      currentEpisode := 0;
      currentScene := 0;
      historyManager := new HistoryManager();
      userName := config.playerName;
      npcs := NpcTable(config.npcs);
    }

    /**
     * Moves the cursor to the next scene, rolling over to scene 0 of the
     * next episode, and clears the log whatever comes next. Reports game
     * over when the cursor has run past the last episode; otherwise, when
     * no episode is empty, the cursor is on an existing scene, which is
     * played next.
     */
    method AdvanceScene() returns (gameOver: bool)
      requires currentEpisode < |config.episodes|
      modifies this, historyManager
      ensures Position() == Next(config.episodes, old(Position()))
      ensures Before(old(Position()), Position())
      ensures historyManager.history == []
      ensures gameOver <==> Finished(config.episodes, Position())
      ensures !gameOver && NoEmptyEpisode(config.episodes) ==> InRange(config.episodes, Position())
    {
      currentScene := currentScene + 1;
      var episode := config.episodes[currentEpisode];
      if currentScene >= |episode.scenes| {
        currentEpisode := currentEpisode + 1;
        currentScene := 0;
      }
      historyManager.ClearHistory();
      gameOver := currentEpisode >= |config.episodes|;
    }

    /**
     * The turn loop of the scene under the cursor, from the current log,
     * over the player's `inputs`: each pass logs the player's line and the
     * NPC's reply, then asks the judge. Returns how many inputs were read
     * and whether the goal was met; `completed` is false only when the
     * input ran out first.
     */
    method PlayScene(inputs: seq<string>, oracle: Oracle) returns (used: nat, completed: bool)
      requires Valid() && WellFormed(config) && InRange(config.episodes, Position())
      modifies historyManager
      ensures var r := RunScene(SetupAt(config, Position()), oracle, old(historyManager.history), inputs);
        historyManager.history == r.history && used == r.used && completed == r.completed
    {
      var episode := config.episodes[currentEpisode];
      var scene := episode.scenes[currentScene];
      ghost var s := SetupAt(config, Position());
      ghost var start := historyManager.history;
      assert HasCast(scene, npcs);
      completed := false;
      used := 0;
      while !completed
        invariant used <= |inputs|
        invariant !completed ==>
          var now := RunScene(s, oracle, historyManager.history, inputs[used..]);
          RunScene(s, oracle, start, inputs) == SceneResult(now.history, used + now.used, now.completed)
        invariant completed ==>
          RunScene(s, oracle, start, inputs) == SceneResult(historyManager.history, used, true)
        decreases |inputs| - used, !completed
      {
        if used == |inputs| {
          return;
        }
        var userInput := inputs[used];
        ghost var before := historyManager.history;
        ghost var remaining := inputs[used..];
        RunSceneStep(s, oracle, before, remaining);
        assert remaining[0] == userInput && remaining[1..] == inputs[used + 1..];
        used := used + 1;
        historyManager.AddMessage(userName, userInput);
        var npcName := scene.npcs[0];
        var npc := npcs[npcName];
        var response := oracle.reply(npc, historyManager.GetHistory());
        historyManager.AddMessage(npcName, response);
        completed := CheckUserTargetCompleted(oracle, scene.target, historyManager.GetHistory());
        ghost var next := historyManager.history;
        assert next == Exchange(s, oracle, before, userInput);
        assert next[..|next|] == next;
      }
    }

    /**
     * Plays the game from its first scene: each scene runs until its goal
     * is met, then the cursor advances and the next scene runs, until game
     * over. A finished game has played every scene of every episode exactly
     * once, in order, and ends with an empty log.
     */
    method StartGame(inputs: seq<string>, oracle: Oracle)
      returns (visited: seq<Cursor>, transcripts: seq<seq<Turn>>, finished: bool)
      requires Valid() && WellFormed(config)
      requires Position() == Cursor(0, 0) && historyManager.history == []
      modifies this, historyManager
      ensures GameResult(visited, transcripts, finished) == PlayFrom(config, Cursor(0, 0), inputs, oracle)
      ensures finished ==> visited == Walk(config.episodes, Cursor(0, 0))
      ensures finished ==> |visited| == TotalScenes(config.episodes)
      ensures finished ==> Finished(config.episodes, Position()) && historyManager.history == []
      ensures !finished ==> |visited| > 0 && Position() == visited[|visited| - 1]
      ensures !finished ==> historyManager.history == transcripts[|transcripts| - 1]
      ensures |transcripts| == |visited|
      ensures Said(transcripts) <= inputs
      ensures !finished ==> Said(transcripts) == inputs
      ensures ScenesPlayed(config, oracle, visited, transcripts, finished)
    {
      visited, transcripts := [], [];
      var unread := inputs;
      var gameOver := false;
      finished := true;
      PrependNothing(PlayFrom(config, Cursor(0, 0), inputs, oracle));
      while !gameOver
        invariant finished
        invariant gameOver <==> Finished(config.episodes, Position())
        invariant InRange(config.episodes, Position()) || Finished(config.episodes, Position())
        invariant historyManager.history == []
        invariant PlayFrom(config, Cursor(0, 0), inputs, oracle) ==
          Prepend(visited, transcripts, PlayFrom(config, Position(), unread, oracle))
        decreases Remaining(config.episodes, Position())
      {
        ghost var here := Position();
        ghost var r := RunScene(SetupAt(config, here), oracle, [], unread);
        ghost var visitedBefore, transcriptsBefore := visited, transcripts;
        var used, completed := PlayScene(unread, oracle);
        visited := visited + [Position()];
        transcripts := transcripts + [historyManager.history];
        if !completed {
          PlayFromUnmet(config, here, unread, oracle);
          finished := false;
          assert Position() == visited[|visited| - 1];
          break;
        }
        ghost var nextCursor := Next(config.episodes, here);
        PlayFromMet(config, here, unread, oracle);
        NextRemaining(config.episodes, here);
        unread := unread[used..];
        ghost var tail := PlayFrom(config, nextCursor, unread, oracle);
        PrependTwice(visitedBefore, transcriptsBefore, [here], [r.history], tail);
        gameOver := AdvanceScene();
        assert Position() == nextCursor;
      }
      PlayFromStart(config, inputs, oracle, GameResult(visited, transcripts, finished));
    }
  }
}
