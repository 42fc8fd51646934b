/**
 The streaming accumulator of a turn (agent.py, `_make_on_message`: partial deltas, the canonical
 fold of each assistant message, and the emissions handed to the token callback).
 */
module Streaming {

  datatype Accumulated = Accumulated(text: string, partial: string, lastEmitted: string, emitted: seq<string>)

  const START := Accumulated("", "", "", [])

  const SEPARATOR := "\n\n"

  /** `_cum`: the folded text joined to the message in flight. */
  function Cumulative(text: string, partial: string): string {
    text + (if text != "" && partial != "" then SEPARATOR else "") + partial
  }

  function Emit(a: Accumulated, cum: string): Accumulated {
    if cum != a.lastEmitted then a.(lastEmitted := cum, emitted := a.emitted + [cum]) else a
  }

  /** A text delta of the message in flight; an empty one is ignored. */
  function OnDelta(a: Accumulated, t: string): Accumulated {
    if t == "" then a else
      var b := a.(partial := a.partial + t);
      Emit(b, Cumulative(b.text, b.partial))
  }

  /** The canonical fold of one assistant message, superseding the partial. */
  function OnAssistant(a: Accumulated, message: string): Accumulated {
    var b := a.(text := if message == "" then a.text else Cumulative(a.text, message), partial := "");
    Emit(b, Cumulative(b.text, b.partial))
  }

  /** The closure over the mutable `state` dict. */
  class Turn {
    var text: string
    var partial: string
    var lastEmitted: string
    ghost var emitted: seq<string>

    ghost function View(): Accumulated
      reads this
    {
      Accumulated(text, partial, lastEmitted, emitted)
    }

    constructor ()
      ensures View() == START
    {
      text, partial, lastEmitted, emitted := "", "", "", [];
    }

    method Cum() returns (cum: string)
      ensures cum == Cumulative(text, partial)
    {
      cum := text + (if text != "" && partial != "" then SEPARATOR else "") + partial;
    }

    method Delta(t: string)
      modifies this
      ensures View() == OnDelta(old(View()), t)
    {
      if t == "" {
        return;
      }
      partial := partial + t;
      var cum := Cum();
      if cum != lastEmitted {
        emitted := emitted + [cum];
        lastEmitted := cum;
      }
    }

    method Assistant(message: string)
      modifies this
      ensures View() == OnAssistant(old(View()), message)
    {
      if message != "" {
        if text != "" {
          text := text + SEPARATOR;
        }
        text := text + message;
      }
      partial := "";
      var cum := Cum();
      assert text + "" + "" == text;
      if cum != lastEmitted {
        emitted := emitted + [cum];
        lastEmitted := cum;
      }
    }
  }

  // ---------------------------------------------------------------------------
  // Whole turns
  // ---------------------------------------------------------------------------

  /** One assistant message: the deltas streamed for it, then its text. */
  datatype Message = Message(deltas: seq<string>, text: string)

  function Concat(parts: seq<string>): string {
    if parts == [] then "" else Concat(parts[..|parts| - 1]) + parts[|parts| - 1]
  }

  function AfterDeltas(a: Accumulated, deltas: seq<string>): Accumulated {
    if deltas == [] then a else OnDelta(AfterDeltas(a, deltas[..|deltas| - 1]), deltas[|deltas| - 1])
  }

  function AfterMessages(messages: seq<Message>): Accumulated {
    if messages == [] then START else
      var m := messages[|messages| - 1];
      OnAssistant(AfterDeltas(AfterMessages(messages[..|messages| - 1]), m.deltas), m.text)
  }

  /** The non-empty message texts, joined by blank lines. */
  function Joined(messages: seq<Message>): string {
    if messages == [] then "" else
      var before, m := Joined(messages[..|messages| - 1]), messages[|messages| - 1];
      if m.text == "" then before else if before == "" then m.text else before + SEPARATOR + m.text
  }

  /** Each emission strictly extends the one before it, and the last one is remembered. */
  predicate Growing(a: Accumulated) {
    && (forall i | 0 < i < |a.emitted| :: a.emitted[i - 1] < a.emitted[i])
    && a.lastEmitted == if a.emitted == [] then "" else a.emitted[|a.emitted| - 1]
  }

  lemma EmitGrows(a: Accumulated, cum: string)
    requires Growing(a) && a.lastEmitted <= cum
    ensures Growing(Emit(a, cum)) && Emit(a, cum).lastEmitted == cum
  {
  }

  lemma CumulativeExtends(text: string, partial: string, more: string)
    requires partial <= more
    ensures Cumulative(text, partial) <= Cumulative(text, more)
  {
    assert partial + more[|partial|..] == more;
  }

  lemma {:induction false} DeltasGrow(a: Accumulated, deltas: seq<string>)
    requires Growing(a) && a.partial == "" && a.lastEmitted == a.text
    ensures var b := AfterDeltas(a, deltas);
            Growing(b) && b.text == a.text && b.partial == Concat(deltas) &&
                b.lastEmitted == Cumulative(b.text, b.partial)
  {
    if deltas == [] {
      assert a.text + "" + "" == a.text;
    } else {
      var init, t := deltas[..|deltas| - 1], deltas[|deltas| - 1];
      DeltasGrow(a, init);
      var b := AfterDeltas(a, init);
      if t == "" {
        assert b.partial + t == b.partial;
      } else {
        CumulativeExtends(b.text, b.partial, b.partial + t);
        EmitGrows(b.(partial := b.partial + t), Cumulative(b.text, b.partial + t));
      }
    }
  }

  lemma FoldGrows(b: Accumulated, message: string)
    requires Growing(b) && b.lastEmitted == Cumulative(b.text, b.partial) && b.partial <= message
    ensures var c := OnAssistant(b, message);
            Growing(c) && c.partial == "" && c.text == Cumulative(b.text, message) && c.lastEmitted == c.text
  {
    var text := Cumulative(b.text, message);
    CumulativeExtends(b.text, b.partial, message);
    assert message == "" ==> text == b.text;
    assert Cumulative(text, "") == text;
    EmitGrows(b.(text := text, partial := ""), text);
  }

  /**
   For every stream whose deltas never leave the text of their message, each emission strictly
   extends the one before, the last one is the final text, and the final text is the non-empty
   message texts joined by blank lines.
   */
  lemma {:induction false} StreamIsFaithful(messages: seq<Message>)
    requires forall i | 0 <= i < |messages| :: Concat(messages[i].deltas) <= messages[i].text
    ensures var a := AfterMessages(messages);
            Growing(a) && a.partial == "" && a.text == Joined(messages) && a.lastEmitted == a.text
  {
    if messages != [] {
      var init, m := messages[..|messages| - 1], messages[|messages| - 1];
      StreamIsFaithful(init);
      var a := AfterMessages(init);
      DeltasGrow(a, m.deltas);
      FoldGrows(AfterDeltas(a, m.deltas), m.text);
      JoinedIsCumulative(Joined(init), m.text);
    }
  }

  lemma JoinedIsCumulative(before: string, text: string)
    ensures Cumulative(before, text) ==
            if text == "" then before else if before == "" then text else before + SEPARATOR + text
  {
  }

  /** Staying inside the message's text is exactly what the fold needs to extend what was streamed. */
  lemma FoldExtendsExactly(text: string, partial: string, message: string)
    requires partial != "" && message != ""
    ensures Cumulative(text, partial) <= Cumulative(text, message) <==> partial <= message
  {
    if partial <= message {
      CumulativeExtends(text, partial, message);
    }
    var head := text + if text != "" then SEPARATOR else "";
    assert Cumulative(text, partial) == head + partial && Cumulative(text, message) == head + message;
    if head + partial <= head + message {
      assert partial == (head + partial)[|head|..] && message == (head + message)[|head|..];
    }
  }
}
