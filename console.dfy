/** The coloured output sink both listers write to: a termcolor writer
    reduced to the sequence of calls made on it. */
module Console {

  /** The foreground colours the listers use. */
  datatype Color = Blue | Cyan | Green | White | Red

  /** A colour specification: a foreground colour and the bold attribute. */
  datatype Style = Style(fg: Color, bold: bool)

  const BlueBold := Style(Blue, true)
  const CyanPlain := Style(Cyan, false)
  const GreenPlain := Style(Green, false)
  const WhitePlain := Style(White, false)
  const RedBold := Style(Red, true)

  /** One call on the writer: `set_color`, `write!` or `writeln!`. */
  datatype Event = SetColor(style: Style) | Write(text: string) | WriteLn(text: string)

  /** The colour in force after the events `ev`, if any of them sets one. */
  function LastColor(ev: seq<Event>): (c: Option<Style>)
    ensures c.Some? <==> exists k :: 0 <= k < |ev| && ev[k].SetColor?
  {
    if ev == [] then None
    else if ev[|ev| - 1].SetColor? then Some(ev[|ev| - 1].style)
    else LastColor(ev[..|ev| - 1])
  }

  datatype Option<T> = None | Some(value: T)

  /** The colour in force is the one set by the last `set_color` call. */
  lemma {:induction false} LastColorIsLastSet(ev: seq<Event>, k: nat)
    requires k < |ev| && ev[k].SetColor?
    requires forall m :: k < m < |ev| ==> !ev[m].SetColor?
    ensures LastColor(ev) == Some(ev[k].style)
  {
    if k < |ev| - 1 {
      var init := ev[..|ev| - 1];
      assert init[k] == ev[k];
      assert forall m :: k < m < |init| ==> init[m] == ev[m];
      LastColorIsLastSet(init, k);
    }
  }

  /** Events without colour changes leave the colour in force unchanged. */
  lemma {:induction false} LastColorAppend(a: seq<Event>, b: seq<Event>)
    requires forall k :: 0 <= k < |b| ==> !b[k].SetColor?
    ensures LastColor(a + b) == LastColor(a)
  {
    if b != [] {
      assert (a + b)[..|a + b| - 1] == a + b[..|b| - 1];
      LastColorAppend(a, b[..|b| - 1]);
    } else {
      assert a + b == a;
    }
  }

  /** One `set_color` call per style, in order. */
  function SetColors(styles: seq<Style>): (r: seq<Event>)
    ensures |r| == |styles|
    ensures forall k :: 0 <= k < |r| ==> r[k] == SetColor(styles[k])
  {
    seq(|styles|, k requires 0 <= k < |styles| => SetColor(styles[k]))
  }

  lemma SetColorsSnoc(styles: seq<Style>, style: Style)
    ensures SetColors(styles + [style]) == SetColors(styles) + [SetColor(style)]
  {
  }

  /** After a run of `set_color` calls the last colour set is in force. */
  lemma SetColorsLast(styles: seq<Style>)
    requires styles != []
    ensures LastColor(SetColors(styles)) == Some(styles[|styles| - 1])
  {
  }

  /** Groups of events, one group after another. */
  function Flatten(groups: seq<seq<Event>>): seq<Event> {
    if groups == [] then [] else Flatten(groups[..|groups| - 1]) + groups[|groups| - 1]
  }

  lemma FlattenPrefix(groups: seq<seq<Event>>, i: nat)
    requires i < |groups|
    ensures Flatten(groups[..i + 1]) == Flatten(groups[..i]) + groups[i]
  {
    assert groups[..i + 1][..i] == groups[..i];
  }

  /** The number of line breaks (`writeln!` calls) among `ev`. */
  function Newlines(ev: seq<Event>): (n: nat)
    ensures n <= |ev|
    ensures n == 0 <==> forall k :: 0 <= k < |ev| ==> !ev[k].WriteLn?
  {
    if ev == [] then 0
    else Newlines(ev[..|ev| - 1]) + (if ev[|ev| - 1].WriteLn? then 1 else 0)
  }

  lemma NewlinesSetColors(styles: seq<Style>)
    ensures Newlines(SetColors(styles)) == 0
  {
  }

  lemma {:induction false} NewlinesAppend(a: seq<Event>, b: seq<Event>)
    ensures Newlines(a + b) == Newlines(a) + Newlines(b)
  {
    if b == [] {
      assert a + b == a;
    } else {
      assert (a + b)[..|a + b| - 1] == a + b[..|b| - 1];
      NewlinesAppend(a, b[..|b| - 1]);
    }
  }

  /** The texts of the `writeln!` calls among `ev`, in order. */
  function Lines(ev: seq<Event>): (r: seq<string>)
    ensures |r| == Newlines(ev)
  {
    if ev == [] then []
    else Lines(ev[..|ev| - 1]) + (if ev[|ev| - 1].WriteLn? then [ev[|ev| - 1].text] else [])
  }

  lemma {:induction false} LinesAppend(a: seq<Event>, b: seq<Event>)
    ensures Lines(a + b) == Lines(a) + Lines(b)
  {
    if b == [] {
      assert a + b == a;
    } else {
      assert (a + b)[..|a + b| - 1] == a + b[..|b| - 1];
      LinesAppend(a, b[..|b| - 1]);
    }
  }

  /** A writer that records every call made on it, in order. */
  class ColorBuffer {
    var events: seq<Event>

    constructor ()
      ensures events == []
    {
      events := [];
    }

    method SetColor(style: Style)
      modifies this
      ensures events == old(events) + [Event.SetColor(style)]
    {
      events := events + [Event.SetColor(style)];
    }

    method Write(text: string)
      modifies this
      ensures events == old(events) + [Event.Write(text)]
    {
      events := events + [Event.Write(text)];
    }

    method WriteLn(text: string)
      modifies this
      ensures events == old(events) + [Event.WriteLn(text)]
    {
      events := events + [Event.WriteLn(text)];
    }
  }
}
