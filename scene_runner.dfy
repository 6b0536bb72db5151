/**
 * What one scene's conversation produces. Each pass of the turn loop logs
 * the player's line, then the NPC's reply to the transcript that already
 * holds it, then asks the judge about the transcript that holds the reply;
 * the loop stops at the first "yes". The player's lines come from a finite
 * input; when it runs out before a "yes" the scene stops unfinished, as the
 * console's end of input does.
 */
module SceneRunner {
  import opened History
  import opened Verdict
  import opened Scenario

  /**
   * The language model as the game sees it: the NPC's reply to a persona
   * and a rendered transcript, and the judge's raw answer to a goal and a
   * rendered transcript.
   */
  datatype Oracle = Oracle(reply: (NpcDef, string) -> string, judge: (string, string) -> string)

  /** Who talks in a scene, and the goal the judge checks. */
  datatype Setup = Setup(player: string, npcName: string, npc: NpcDef, target: string)

  /**
   * The judge's verdict on a rendered transcript: the goal counts as met
   * exactly when the judge's answer holds "yes" in any mix of cases.
   */
  function CheckUserTargetCompleted(oracle: Oracle, target: string, history: string): (completed: bool)
    ensures completed <==> exists i: nat :: YesAt(oracle.judge(target, history), i)
  {
    SaysYes(oracle.judge(target, history))
  }

  /**
   * One pass of the loop: the log gains exactly two turns, the player's
   * line and then the NPC's reply to the log that already holds that line;
   * the turns before them are kept.
   */
  function Exchange(s: Setup, oracle: Oracle, history: seq<Turn>, input: string): (next: seq<Turn>)
    ensures |next| == |history| + 2 && next[..|history|] == history
    ensures next[|history|] == Turn(s.player, input)
    ensures next[|history| + 1] == Turn(s.npcName, oracle.reply(s.npc, Render(next[..|history| + 1])))
  {
    var withInput := history + [Turn(s.player, input)];
    withInput + [Turn(s.npcName, oracle.reply(s.npc, Render(withInput)))]
  }

  /** The judge's verdict on the first `n` turns of `t`. */
  predicate Judged(s: Setup, oracle: Oracle, t: seq<Turn>, n: nat)
    requires n <= |t|
  {
    CheckUserTargetCompleted(oracle, s.target, Render(t[..n]))
  }

  /** The log at the end of the loop, how many inputs it read, and whether the goal was met. */
  datatype SceneResult = SceneResult(history: seq<Turn>, used: nat, completed: bool)

  /**
   * The turn loop run from the log `history` over the player's `inputs`. It
   * reads inputs one per pass, adds exactly two turns per pass, keeps the
   * turns it started with, and stops short of a "yes" only when the input
   * has run out.
   */
  function RunScene(s: Setup, oracle: Oracle, history: seq<Turn>, inputs: seq<string>): (r: SceneResult)
    ensures r.used <= |inputs|
    ensures |r.history| == |history| + 2 * r.used
    ensures r.history[..|history|] == history
    ensures !r.completed ==> r.used == |inputs|
    ensures r.completed ==> r.used > 0
    decreases |inputs|
  {
    if inputs == [] then SceneResult(history, 0, false)
    else
      var next := Exchange(s, oracle, history, inputs[0]);
      if Judged(s, oracle, next, |next|) then SceneResult(next, 1, true)
      else
        var r := RunScene(s, oracle, next, inputs[1..]);
        SceneResult(r.history, r.used + 1, r.completed)
  }

  /** One pass of the loop, unfolded: the scene stops after it on a yes, and otherwise goes on from the longer log. */
  lemma RunSceneStep(s: Setup, oracle: Oracle, history: seq<Turn>, inputs: seq<string>)
    requires inputs != []
    ensures var next := Exchange(s, oracle, history, inputs[0]);
      var r := RunScene(s, oracle, history, inputs);
      if Judged(s, oracle, next, |next|) then r == SceneResult(next, 1, true)
      else
        var rest := RunScene(s, oracle, next, inputs[1..]);
        r == SceneResult(rest.history, rest.used + 1, rest.completed)
  {
  }

  /**
   * The pass that starts at index `k` of log `t`: the player's turn holding
   * `input`, then the NPC's reply to the log up to and including it; the
   * judge, asked right after the reply, says yes exactly when `last` holds.
   */
  ghost predicate Pass(s: Setup, oracle: Oracle, t: seq<Turn>, k: nat, input: string, last: bool)
  {
    && k + 2 <= |t|
    && t[k] == Turn(s.player, input)
    && t[k + 1] == Turn(s.npcName, oracle.reply(s.npc, Render(t[..k + 1])))
    && (Judged(s, oracle, t, k + 2) <==> last)
  }

  /** The first pass, seen in the final log; the judge says yes after it exactly when the scene ends there. */
  lemma FirstPass(s: Setup, oracle: Oracle, history: seq<Turn>, inputs: seq<string>, r: SceneResult)
    requires r == RunScene(s, oracle, history, inputs)
    requires 0 < r.used
    ensures Pass(s, oracle, r.history, |history|, inputs[0], r.completed && r.used == 1)
  {
    var withInput := history + [Turn(s.player, inputs[0])];
    var next := Exchange(s, oracle, history, inputs[0]);
    var k := |history|;
    var t := r.history;
    assert t[..k + 2] == next by {
      if !Judged(s, oracle, next, |next|) {
        var rest := RunScene(s, oracle, next, inputs[1..]);
        assert t == rest.history;
      }
    }
    assert t[k] == next[k] && t[k + 1] == next[k + 1];
    assert t[..k + 1] == withInput by {
      assert t[..k + 1] == next[..k + 1];
    }
    assert Judged(s, oracle, t, k + 2) == Judged(s, oracle, next, |next|) by {
      assert t[..k + 2] == next[..|next|];
    }
  }

  /** After a first pass the judge rejected, the rest of the scene runs from the longer log. */
  lemma LaterPasses(s: Setup, oracle: Oracle, history: seq<Turn>, inputs: seq<string>, r: SceneResult)
    requires r == RunScene(s, oracle, history, inputs)
    requires 1 < r.used
    ensures var rest := RunScene(s, oracle, Exchange(s, oracle, history, inputs[0]), inputs[1..]);
      r == SceneResult(rest.history, rest.used + 1, rest.completed)
  {
  }

  /**
   * Pass `i` of the loop (counting from 0), seen in the final log: it adds
   * the player's turn holding input `i`, then the NPC's reply to the log up
   * to and including that turn; and the judge, asked right after the reply,
   * says yes exactly on the last pass of a completed scene.
   */
  lemma {:induction false} PassAt(s: Setup, oracle: Oracle, history: seq<Turn>, inputs: seq<string>, r: SceneResult, i: nat)
    requires r == RunScene(s, oracle, history, inputs)
    requires i < r.used
    ensures Pass(s, oracle, r.history, |history| + 2 * i, inputs[i], r.completed && i == r.used - 1)
    decreases i
  {
    if i == 0 {
      FirstPass(s, oracle, history, inputs, r);
    } else {
      var next := Exchange(s, oracle, history, inputs[0]);
      var rest := RunScene(s, oracle, next, inputs[1..]);
      LaterPasses(s, oracle, history, inputs, r);
      PassAt(s, oracle, next, inputs[1..], rest, i - 1);
      assert |next| + 2 * (i - 1) == |history| + 2 * i;
      assert inputs[1..][i - 1] == inputs[i];
    }
  }

  /**
   * A scene's transcript `t`: it alternates player and NPC turns starting
   * with the player, each NPC turn is the reply to everything before it,
   * and the judge, asked after every reply, says yes exactly after the last
   * one when `met` holds, and never otherwise.
   */
  ghost predicate Conversation(s: Setup, oracle: Oracle, t: seq<Turn>, met: bool)
  {
    && |t| % 2 == 0
    && (met ==> |t| > 0)
    && (forall j :: 0 <= j < |t| ==> t[j].role == (if j % 2 == 0 then s.player else s.npcName))
    && (forall j :: 0 <= j < |t| && j % 2 == 1 ==> t[j].content == oracle.reply(s.npc, Render(t[..j])))
    && (forall n :: 0 < n <= |t| && n % 2 == 0 ==> (Judged(s, oracle, t, n) <==> met && n == |t|))
  }

  /**
   * A scene run from an empty log: its transcript is a conversation whose
   * player turns are the inputs it read, in order; it holds two turns per
   * input read; and it stops either on the judge's first yes or when the
   * input runs out. Scripted dialogue never enters it.
   */
  lemma SceneFromEmpty(s: Setup, oracle: Oracle, inputs: seq<string>)
    ensures var r := RunScene(s, oracle, [], inputs);
      && Conversation(s, oracle, r.history, r.completed)
      && |r.history| == 2 * r.used
      && (forall i :: 0 <= i < r.used ==> r.history[2 * i].content == inputs[i])
      && (r.completed || r.used == |inputs|)
  {
    var empty: seq<Turn> := [];
    var r := RunScene(s, oracle, empty, inputs);
    var t := r.history;
    forall i: nat | 2 * i + 2 <= |t|
      ensures PassShape(s, oracle, t, r.completed, i)
      ensures t[2 * i].content == inputs[i]
    {
      PassAt(s, oracle, empty, inputs, r, i);
      assert Pass(s, oracle, t, 2 * i, inputs[i], r.completed && i == r.used - 1);
    }
    ConversationOfPasses(s, oracle, t, r.completed);
  }

  /** The player's lines in a transcript: the contents of its turns at even indices, in order. */
  function PlayerLines(t: seq<Turn>): seq<string>
  {
    seq(|t| / 2, i requires 0 <= i < |t| / 2 => t[2 * i].content)
  }

  /** A scene run from an empty log holds, as its player lines, exactly the inputs it read, in order. */
  lemma ScenePlayerLines(s: Setup, oracle: Oracle, inputs: seq<string>)
    ensures var r := RunScene(s, oracle, [], inputs);
      PlayerLines(r.history) == inputs[..r.used]
  {
    SceneFromEmpty(s, oracle, inputs);
  }

  /** The facts `PassAt` gives about pass `i` of a scene run from an empty log. */
  ghost predicate PassShape(s: Setup, oracle: Oracle, t: seq<Turn>, met: bool, i: nat)
    requires 2 * i + 2 <= |t|
  {
    && t[2 * i].role == s.player
    && t[2 * i + 1] == Turn(s.npcName, oracle.reply(s.npc, Render(t[..2 * i + 1])))
    && (Judged(s, oracle, t, 2 * i + 2) <==> met && 2 * i + 2 == |t|)
  }

  /** A log made of well-formed passes, one after another, is a conversation. */
  lemma ConversationOfPasses(s: Setup, oracle: Oracle, t: seq<Turn>, met: bool)
    requires |t| % 2 == 0 && (met ==> |t| > 0)
    requires forall i: nat :: 2 * i + 2 <= |t| ==> PassShape(s, oracle, t, met, i)
    ensures Conversation(s, oracle, t, met)
  {
    forall j | 0 <= j < |t|
      ensures t[j].role == (if j % 2 == 0 then s.player else s.npcName)
      ensures j % 2 == 1 ==> t[j].content == oracle.reply(s.npc, Render(t[..j]))
    {
      var i: nat := j / 2;
      assert PassShape(s, oracle, t, met, i);
    }
    forall n | 0 < n <= |t| && n % 2 == 0
      ensures Judged(s, oracle, t, n) <==> met && n == |t|
    {
      var i: nat := n / 2 - 1;
      assert PassShape(s, oracle, t, met, i);
    }
  }
}
