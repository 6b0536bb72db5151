/**
 * The progress cursor (episode index, scene index) and the rule that moves
 * it to the next scene, rolling over to scene 0 of the next episode.
 */
module Navigator {
  import opened Scenario

  datatype Cursor = Cursor(episode: nat, scene: nat)

  /** Lexicographic order on cursors: `a` comes strictly before `b`. */
  predicate Before(a: Cursor, b: Cursor)
  {
    a.episode < b.episode || (a.episode == b.episode && a.scene < b.scene)
  }

  /** The cursor names an existing scene. */
  predicate InRange(eps: seq<Episode>, c: Cursor)
  {
    c.episode < |eps| && c.scene < |eps[c.episode].scenes|
  }

  /** Game over: the cursor has run past the last episode. */
  predicate Finished(eps: seq<Episode>, c: Cursor)
  {
    c.episode >= |eps|
  }

  predicate NoEmptyEpisode(eps: seq<Episode>)
  {
    forall e :: 0 <= e < |eps| ==> |eps[e].scenes| > 0
  }

  /**
   * The cursor after a scene completes: the next scene of the episode, or
   * scene 0 of the next episode when the episode has no further scene. It
   * always moves strictly forward, and with no empty episode it lands on a
   * scene or on game over, the latter exactly after the last scene of the
   * last episode.
   */
  function Next(eps: seq<Episode>, c: Cursor): (n: Cursor)
    requires c.episode < |eps|
    ensures Before(c, n)
    ensures NoEmptyEpisode(eps) ==> InRange(eps, n) || Finished(eps, n)
    ensures Finished(eps, n) <==> c.episode == |eps| - 1 && c.scene + 1 >= |eps[c.episode].scenes|
  {
    if c.scene + 1 < |eps[c.episode].scenes| then Cursor(c.episode, c.scene + 1)
    else Cursor(c.episode + 1, 0)
  }

  /** The scenes still to be played from `c` on, `c` itself included. */
  function Remaining(eps: seq<Episode>, c: Cursor): nat
  {
    if c.episode >= |eps| then 0
    else
      var here := |eps[c.episode].scenes|;
      (if c.scene < here then here - c.scene else 0) + TotalScenes(eps[c.episode + 1..])
  }

  /** From the first scene, every scene of every episode remains. */
  lemma StartRemaining(eps: seq<Episode>)
    requires |eps| > 0
    ensures Remaining(eps, Cursor(0, 0)) == TotalScenes(eps)
  {
  }

  /** Each advance from an existing scene uses up exactly one scene. */
  lemma NextRemaining(eps: seq<Episode>, c: Cursor)
    requires InRange(eps, c)
    ensures Remaining(eps, Next(eps, c)) == Remaining(eps, c) - 1
  {
    var e := c.episode;
    if c.scene + 1 >= |eps[e].scenes| && e + 1 < |eps| {
      assert eps[e + 1..][1..] == eps[e + 2..];
    }
  }

  /** No existing scene lies strictly between a scene and the one after it. */
  lemma NextSkipsNothing(eps: seq<Episode>, c: Cursor, d: Cursor)
    requires InRange(eps, c) && InRange(eps, d) && Before(c, d)
    ensures d == Next(eps, c) || Before(Next(eps, c), d)
  {
  }

  /**
   * The scenes visited from `c` until game over, in the order the game
   * plays them; there are exactly `Remaining(eps, c)` of them.
   */
  function Walk(eps: seq<Episode>, c: Cursor): (w: seq<Cursor>)
    requires NoEmptyEpisode(eps)
    requires InRange(eps, c) || Finished(eps, c)
    ensures |w| == Remaining(eps, c)
    decreases Remaining(eps, c)
  {
    if Finished(eps, c) then []
    else
      NextRemaining(eps, c);
      [c] + Walk(eps, Next(eps, c))
  }

  /**
   * The walk starts at `c`, visits only existing scenes not before `c`, and
   * strictly increases, so it never visits a scene twice.
   */
  lemma {:induction false} WalkOrdered(eps: seq<Episode>, c: Cursor)
    requires NoEmptyEpisode(eps)
    requires InRange(eps, c) || Finished(eps, c)
    ensures var w := Walk(eps, c);
      && (w != [] ==> w[0] == c)
      && (forall i :: 0 <= i < |w| ==> InRange(eps, w[i]) && !Before(w[i], c))
      && (forall i, j :: 0 <= i < j < |w| ==> Before(w[i], w[j]))
    decreases Remaining(eps, c)
  {
    if !Finished(eps, c) {
      NextRemaining(eps, c);
      var n := Next(eps, c);
      WalkOrdered(eps, n);
      var w, rest := Walk(eps, c), Walk(eps, n);
      assert w == [c] + rest;
      forall i | 0 < i < |w|
        ensures w[i] == rest[i - 1]
      {
      }
    }
  }

  /** Every existing scene from `c` on lies on the walk: no scene is skipped. */
  lemma {:induction false} WalkComplete(eps: seq<Episode>, c: Cursor, d: Cursor)
    requires NoEmptyEpisode(eps)
    requires InRange(eps, c) || Finished(eps, c)
    requires InRange(eps, d) && !Before(d, c)
    ensures d in Walk(eps, c)
    decreases Remaining(eps, c)
  {
    if d != c {
      NextRemaining(eps, c);
      NextSkipsNothing(eps, c, d);
      WalkComplete(eps, Next(eps, c), d);
    }
  }

  /**
   * From the first scene the game visits exactly the existing scenes, each
   * once, in lexicographic order: `TotalScenes(eps)` of them.
   */
  lemma WalkFromStart(eps: seq<Episode>, d: Cursor)
    requires |eps| > 0 && NoEmptyEpisode(eps)
    ensures |Walk(eps, Cursor(0, 0))| == TotalScenes(eps)
    ensures d in Walk(eps, Cursor(0, 0)) <==> InRange(eps, d)
  {
    StartRemaining(eps);
    WalkOrdered(eps, Cursor(0, 0));
    if InRange(eps, d) {
      WalkComplete(eps, Cursor(0, 0), d);
    }
  }
}
