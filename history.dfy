/**
 * The conversation log of one scene: an append-only list of (role, content)
 * turns that renders to one `role: content` line per turn, joined by newlines.
 */
module History {

  /** One entry of the log: who spoke, and what was said. */
  datatype Turn = Turn(role: string, content: string)

  /** The text of one entry, `role: content`. */
  function Line(t: Turn): string
  {
    t.role + ": " + t.content
  }

  /** The text of every entry, in order. */
  function Lines(turns: seq<Turn>): (ls: seq<string>)
    ensures |ls| == |turns|
    ensures forall i :: 0 <= i < |turns| ==> ls[i] == Line(turns[i])
  {
    seq(|turns|, i requires 0 <= i < |turns| => Line(turns[i]))
  }

  /**
   * `"\n".join(f"{role}: {content}" for each turn)`: one line per turn, in
   * insertion order, newlines between neighbours and none at the end. The
   * whole text is empty exactly when the log is empty.
   */
  function Render(turns: seq<Turn>): (s: string)
    ensures s == "" <==> turns == []
  {
    if |turns| == 0 then ""
    else if |turns| == 1 then Line(turns[0])
    else Line(turns[0]) + "\n" + Render(turns[1..])
  }

  /** `s.split("\n")`: the pieces of `s` between newlines, in order; never an empty list. */
  function SplitLines(s: string): (pieces: seq<string>)
    ensures |pieces| > 0
  {
    if s == [] then [""]
    else
      var rest := SplitLines(s[1..]);
      if s[0] == '\n' then [""] + rest
      else [[s[0]] + rest[0]] + rest[1..]
  }

  /** Splitting gives newline-free pieces, one more than there are newlines. */
  lemma {:induction false} SplitLinesPieces(s: string)
    ensures |SplitLines(s)| == multiset(s)['\n'] + 1
    ensures forall i :: 0 <= i < |SplitLines(s)| ==> '\n' !in SplitLines(s)[i]
  {
    if s != [] {
      assert s == [s[0]] + s[1..];
      SplitLinesPieces(s[1..]);
      var rest := SplitLines(s[1..]);
      if s[0] != '\n' {
        var pieces := SplitLines(s);
        forall i | 0 <= i < |pieces|
          ensures '\n' !in pieces[i]
        {
          if i == 0 {
            assert pieces[0] == [s[0]] + rest[0];
          } else {
            assert pieces[i] == rest[i];
          }
        }
      }
    }
  }

  /** No role and no content holds a newline, so each turn renders to exactly one line. */
  predicate SingleLineTurns(turns: seq<Turn>)
  {
    forall i :: 0 <= i < |turns| ==> '\n' !in turns[i].role && '\n' !in turns[i].content
  }

  /**
   * Rendering follows insertion order: a new turn shows up as one more line
   * at the end, and the text before it is unchanged.
   */
  lemma {:induction false} RenderAppend(turns: seq<Turn>, t: Turn)
    ensures Render(turns + [t]) == if turns == [] then Line(t) else Render(turns) + "\n" + Line(t)
  {
    if |turns| == 1 {
      assert (turns + [t])[1..] == [t];
    } else if |turns| > 1 {
      assert (turns + [t])[1..] == turns[1..] + [t];
      RenderAppend(turns[1..], t);
    }
  }

  /** A text without newlines is a single piece. */
  lemma {:induction false} SplitSingle(s: string)
    requires '\n' !in s
    ensures SplitLines(s) == [s]
  {
    if s != [] {
      assert s == [s[0]] + s[1..];
      SplitSingle(s[1..]);
    }
  }

  /** Splitting at a newline splits the two sides independently. */
  lemma {:induction false} SplitAround(a: string, b: string)
    ensures SplitLines(a + "\n" + b) == SplitLines(a) + SplitLines(b)
  {
    var s := a + "\n" + b;
    if a == [] {
      assert s[0] == '\n' && s[1..] == b;
    } else {
      assert s[0] == a[0] && s[1..] == a[1..] + "\n" + b;
      SplitAround(a[1..], b);
    }
  }

  /** The text of one turn is a single line when neither its role nor its content holds a newline. */
  lemma LineSingle(t: Turn)
    requires '\n' !in t.role && '\n' !in t.content
    ensures '\n' !in Line(t)
  {
    assert Line(t) == t.role + (": " + t.content);
  }

  /**
   * The rendered log can be read back line by line: for a non-empty log of
   * single-line turns, splitting the text at newlines gives back each turn's
   * `role: content` line, in insertion order, with nothing trailing.
   */
  lemma {:induction false} SplitRender(turns: seq<Turn>)
    requires turns != []
    requires SingleLineTurns(turns)
    ensures SplitLines(Render(turns)) == Lines(turns)
  {
    var first, rest := turns[0], turns[1..];
    LineSingle(first);
    SplitSingle(Line(first));
    if |turns| > 1 {
      assert SingleLineTurns(rest) by {
        forall i | 0 <= i < |rest|
          ensures '\n' !in rest[i].role && '\n' !in rest[i].content
        {
          assert rest[i] == turns[i + 1];
        }
      }
      SplitRender(rest);
      assert Render(turns) == Line(first) + "\n" + Render(rest);
      SplitAround(Line(first), Render(rest));
      assert Lines(turns) == [Line(first)] + Lines(rest);
    }
  }

  /**
   * Separators only between neighbours: the rendered text of a non-empty
   * log of single-line turns holds exactly one newline fewer than there
   * are turns.
   */
  lemma RenderNewlines(turns: seq<Turn>)
    requires turns != []
    requires SingleLineTurns(turns)
    ensures multiset(Render(turns))['\n'] == |turns| - 1
  {
    SplitRender(turns);
    SplitLinesPieces(Render(turns));
  }

  /** The history manager of one game: its only state is the list of turns. */
  class HistoryManager {
    var history: seq<Turn>

    constructor ()
      ensures history == []
    {
      history := [];
    }

    /** Appends one turn at the end; the earlier turns stay as they were. */
    method AddMessage(role: string, content: string)
      modifies this
      ensures history == old(history) + [Turn(role, content)]
      ensures GetHistory() == if old(history) == [] then Line(Turn(role, content))
                              else old(GetHistory()) + "\n" + Line(Turn(role, content))
    {
      RenderAppend(history, Turn(role, content));
      history := history + [Turn(role, content)];
    }

    /** The log rendered for a prompt. */
    function GetHistory(): (s: string)
      reads this
      ensures s == "" <==> history == []
    {
      Render(history)
    }

    /** Forgets every turn. */
    method ClearHistory()
      modifies this
      ensures history == [] && GetHistory() == ""
    {
      history := [];
    }
  }
}
