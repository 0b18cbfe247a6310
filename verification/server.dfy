/**
  The per-connection command loop with its socket and channel taken out:
  a left-to-right fold over the received lines that yields the pixels to
  draw, the replies to write, and whether the connection ended cleanly.
 */
module Server {
  import opened Wrappers
  import opened Numeric
  import opened Text
  import opened Pixels
  import opened Grid

  /** A line of help text: tagged `HELP ` and ended by a newline. */
  function HelpEntry(text: string): string
  {
    "HELP " + text + "\n"
  }

  /** The lines of the fixed reply to `HELP`, in order. */
  const HELP_LINES: seq<string> := [
    HelpEntry("Pixelflut Commands:"),
    HelpEntry("- PX <x> <y> <RRGGBB[AA]>"),
    HelpEntry("- PX <x> <y>   >>  PX <x> <y> <RRGGBB>"),
    HelpEntry("- SIZE         >>  SIZE <width> <height>"),
    HelpEntry("- HELP         >>  HELP ...")
  ]

  /** The fixed reply to `HELP`. */
  const HELP: string := Concat(HELP_LINES)

  /** `ServerError`, together with the pixel parse error that `?` passes up. */
  datatype ServerError = UnknownCommand | InvalidPixel(cause: PixelError)

  /** What one accepted line does: send a pixel to the drawing task, or write text to the client. */
  datatype Effect = Forward(px: Pixel) | Reply(text: string)

  /** The decision for one line: carry on after an effect, or end the connection with an error. */
  datatype Step = Continue(effect: Effect) | Stop(error: ServerError)

  /** The effects of the lines handled, in order, and how the loop ended. */
  datatype Outcome = Outcome(effects: seq<Effect>, result: Result<(), ServerError>)

  /** `Display for Size`: `SIZE <width> <height>` and a newline. */
  function FormatSize(size: Size): (s: string)
    ensures IsAscii(s)
    ensures |s| > 0 && s[|s| - 1] == '\n'
    ensures Tokens(s) == ["SIZE", Decimal(size.x), Decimal(size.y)]
  {
    var words := ["SIZE", Decimal(size.x), Decimal(size.y)];
    DigitsAreWord(words[1], 10);
    DigitsAreWord(words[2], 10);
    assert IsWord(words[0]) && IsAscii(words[0]);
    assert AllWords(words) && AllAscii(words);
    JoinAscii(words);
    TokensOfJoin(words, "\n");
    Join(words) + "\n"
  }

  /** Reading the size back from its reply gives the grid's width and height. */
  lemma SizeReplyReadable(size: Size)
    ensures |Tokens(FormatSize(size))| == 3
    ensures Tokens(FormatSize(size))[0] == "SIZE"
    ensures ParseU32(Tokens(FormatSize(size))[1]) == Ok(size.x)
    ensures ParseU32(Tokens(FormatSize(size))[2]) == Ok(size.y)
  {
    DecimalRoundTrip(size.x);
    DecimalRoundTrip(size.y);
  }

  /**
    What the loop does with one line, decided by the first token and the
    number of tokens after it. An unknown command exactly when the line is
    blank, a `PX` line does not have three more tokens (the two-token
    query form is not implemented), or the verb is not one of the three.
    A `PX` line with three more tokens forwards the parse of the whole line,
    or stops with its parse error, which is a number or colour error and
    never a format error; `SIZE` and `HELP` ignore the tokens after them and
    reply with the size or the help text.
   */
  function Dispatch(line: string, size: Size): (r: Step)
    requires IsAscii(line)
    ensures r == Stop(UnknownCommand) <==>
      || |Tokens(line)| == 0
      || (Tokens(line)[0] == "PX" && |Tokens(line)| != 4)
      || Tokens(line)[0] !in {"PX", "SIZE", "HELP"}
    ensures r.Continue? && r.effect.Forward? ==>
      Tokens(line)[0] == "PX" && ParsePixel(line) == Ok(r.effect.px)
    ensures r.Continue? && r.effect.Reply? ==>
      && |Tokens(line)| > 0
      && r.effect.text == if Tokens(line)[0] == "SIZE" then FormatSize(size) else HELP
    ensures r.Stop? && r.error.InvalidPixel? ==>
      && Tokens(line)[0] == "PX"
      && ParsePixel(line) == Err(r.error.cause)
      && !r.error.cause.WrongFormat?
    ensures r.Continue? && r.effect.Reply? ==> Tokens(line)[0] != "PX"
    ensures |Tokens(line)| == 4 && Tokens(line)[0] == "PX" ==>
      r == match ParsePixel(line)
        case Ok(px) => Continue(Forward(px))
        case Err(e) => Stop(InvalidPixel(e))
    ensures |Tokens(line)| > 0 && Tokens(line)[0] == "SIZE" ==> r == Continue(Reply(FormatSize(size)))
    ensures |Tokens(line)| > 0 && Tokens(line)[0] == "HELP" ==> r == Continue(Reply(HELP))
  {
    var ts := Tokens(line);
    if |ts| == 0 then Stop(UnknownCommand)
    else if ts[0] == "PX" then
      if |ts| - 1 == 3 then
        match ParsePixel(line)
        case Ok(px) => Continue(Forward(px))
        case Err(e) => Stop(InvalidPixel(e))
      else Stop(UnknownCommand)
    else if ts[0] == "SIZE" then Continue(Reply(FormatSize(size)))
    else if ts[0] == "HELP" then Continue(Reply(HELP))
    else Stop(UnknownCommand)
  }

  predicate HelpLine(l: string)
  {
    |l| > 5 && l[..5] == "HELP " && l[|l| - 1] == '\n'
  }

  /** The help reply is five tagged lines, so a client can tell every help line from other replies. */
  lemma HelpText()
    ensures |HELP_LINES| == 5 && HELP == Concat(HELP_LINES)
    ensures forall i :: 0 <= i < |HELP_LINES| ==> HelpLine(HELP_LINES[i])
  {
  }

  /** The decision for every line, as if each were the first. */
  function Decide(lines: seq<string>, size: Size): (steps: seq<Step>)
    requires AllAscii(lines)
    ensures |steps| == |lines|
    ensures forall i :: 0 <= i < |lines| ==> steps[i] == Dispatch(lines[i], size)
  {
    seq(|lines|, i requires 0 <= i < |lines| => Dispatch(lines[i], size))
  }

  /**
    The `while let` loop of `process` over per-line decisions: the effects
    of the decisions are performed in order until the first `Stop`, whose
    error ends the loop; running out of lines ends it with `Ok`.
   */
  function Run(steps: seq<Step>): (o: Outcome)
    ensures |o.effects| <= |steps|
    ensures forall i :: 0 <= i < |o.effects| ==> steps[i] == Continue(o.effects[i])
    ensures o.result.Ok? ==> |o.effects| == |steps|
    ensures o.result.Err? ==> |o.effects| < |steps| && steps[|o.effects|] == Stop(o.result.error)
  {
    if |steps| == 0 then Outcome([], Ok(()))
    else
      match steps[0]
      case Stop(e) => Outcome([], Err(e))
      case Continue(effect) =>
        var rest := Run(steps[1..]);
        assert forall i :: 0 <= i < |rest.effects| ==> steps[1..][i] == steps[i + 1];
        Outcome([effect] + rest.effects, rest.result)
  }

  /**
    `process` over the lines received on one connection: lines are handled
    in order until one is rejected. On success every line contributed one
    effect; on failure exactly the lines before the rejected one did, and
    the error is that line's.
   */
  function Process(lines: seq<string>, size: Size): (o: Outcome)
    requires AllAscii(lines)
    ensures |o.effects| <= |lines|
    ensures forall i :: 0 <= i < |o.effects| ==> Dispatch(lines[i], size) == Continue(o.effects[i])
    ensures o.result.Ok? ==> |o.effects| == |lines|
    ensures o.result.Err? ==> |o.effects| < |lines| && Dispatch(lines[|o.effects|], size) == Stop(o.result.error)
  {
    Run(Decide(lines, size))
  }

  /** The pixels sent to the drawing task, in the order they were sent. */
  function Forwarded(effects: seq<Effect>): seq<Pixel>
  {
    if |effects| == 0 then []
    else (if effects[0].Forward? then [effects[0].px] else []) + Forwarded(effects[1..])
  }

  /** The text written to the client, in the order it was written. */
  function Written(effects: seq<Effect>): string
  {
    if |effects| == 0 then ""
    else (if effects[0].Reply? then effects[0].text else "") + Written(effects[1..])
  }

  lemma ConcatAssoc<T>(x: seq<T>, y: seq<T>, z: seq<T>)
    ensures x + (y + z) == (x + y) + z
  {
  }

  /** Running decisions after a run that ended cleanly continues where it left off. */
  lemma {:induction false} RunAppend(x: seq<Step>, y: seq<Step>)
    requires Run(x).result.Ok?
    ensures Run(x + y) == Outcome(Run(x).effects + Run(y).effects, Run(y).result)
    decreases |x|
  {
    if |x| == 0 {
      assert x + y == y;
    } else {
      assert (x + y)[0] == x[0];
      assert (x + y)[1..] == x[1..] + y;
      RunAppend(x[1..], y);
      ConcatAssoc([x[0].effect], Run(x[1..]).effects, Run(y).effects);
    }
  }

  /** Once a run has stopped, later decisions are never looked at. */
  lemma {:induction false} RunStops(x: seq<Step>, y: seq<Step>)
    requires Run(x).result.Err?
    ensures Run(x + y) == Run(x)
    decreases |x|
  {
    assert (x + y)[0] == x[0];
    if x[0].Continue? {
      assert (x + y)[1..] == x[1..] + y;
      RunStops(x[1..], y);
    }
  }

  lemma AllAsciiSplit(a: seq<string>, b: seq<string>)
    ensures AllAscii(a + b) <==> AllAscii(a) && AllAscii(b)
  {
    if AllAscii(a) && AllAscii(b) {
      forall i | 0 <= i < |a + b| ensures IsAscii((a + b)[i]) {
        if i >= |a| { assert (a + b)[i] == b[i - |a|]; }
      }
    }
    if AllAscii(a + b) {
      forall i | 0 <= i < |a| ensures IsAscii(a[i]) {
        assert a[i] == (a + b)[i];
      }
      forall i | 0 <= i < |b| ensures IsAscii(b[i]) {
        assert b[i] == (a + b)[|a| + i];
      }
    }
  }

  lemma DecideSplit(a: seq<string>, b: seq<string>, size: Size)
    requires AllAscii(a) && AllAscii(b)
    ensures AllAscii(a + b)
    ensures Decide(a + b, size) == Decide(a, size) + Decide(b, size)
  {
    AllAsciiSplit(a, b);
    var l, r := Decide(a + b, size), Decide(a, size) + Decide(b, size);
    forall i | 0 <= i < |l| ensures l[i] == r[i] {
      if i < |a| { assert (a + b)[i] == a[i]; } else { assert (a + b)[i] == b[i - |a|]; }
    }
  }

  /**
    Lines received after a cleanly handled prefix are handled as if the
    connection had started there: the effects append and the outcome is
    the later lines' outcome.
   */
  lemma ProcessAppend(a: seq<string>, b: seq<string>, size: Size)
    requires AllAscii(a) && AllAscii(b)
    requires Process(a, size).result.Ok?
    ensures AllAscii(a + b)
    ensures Process(a + b, size) == Outcome(Process(a, size).effects + Process(b, size).effects, Process(b, size).result)
  {
    DecideSplit(a, b, size);
    RunAppend(Decide(a, size), Decide(b, size));
  }

  /** No line after a rejected one is handled: whatever follows, the outcome is the same. */
  lemma NothingAfterFailure(a: seq<string>, b: seq<string>, size: Size)
    requires AllAscii(a) && AllAscii(b)
    requires Process(a, size).result.Err?
    ensures AllAscii(a + b)
    ensures Process(a + b, size) == Process(a, size)
  {
    DecideSplit(a, b, size);
    RunStops(Decide(a, size), Decide(b, size));
  }

  /** A line in pixel display form is forwarded as exactly that pixel. */
  lemma DrawLineForwards(p: Pixel, size: Size)
    ensures IsAscii(FormatPixel(p))
    ensures Dispatch(FormatPixel(p), size) == Continue(Forward(p))
  {
    PixelTokens(p);
    PixelRoundTrip(p);
  }

  /**
    Any `PX` line the pixel parser accepts, however it is spaced or spelled
    (leading zeros, upper-case hex, a '+' sign), is forwarded as the pixel
    it parses to; any other `PX` line never forwards anything.
   */
  lemma PixelLineForwards(line: string, size: Size)
    requires IsAscii(line)
    requires |Tokens(line)| > 0 && Tokens(line)[0] == "PX"
    ensures ParsePixel(line).Ok? <==> Dispatch(line, size).Continue?
    ensures ParsePixel(line).Ok? ==> Dispatch(line, size) == Continue(Forward(ParsePixel(line).value))
  {
  }

  /**
    The two-token query `PX <x> <y>` is not implemented: whatever its
    coordinates, it ends the connection as an unknown command.
   */
  lemma QueryIsUnknown(line: string, size: Size)
    requires IsAscii(line)
    requires |Tokens(line)| == 3 && Tokens(line)[0] == "PX"
    ensures Dispatch(line, size) == Stop(UnknownCommand)
  {
  }

  /** The display forms of pixels, one per line. */
  function PixelLines(ps: seq<Pixel>): (lines: seq<string>)
    ensures |lines| == |ps| && AllAscii(lines)
    ensures forall i :: 0 <= i < |ps| ==> lines[i] == FormatPixel(ps[i])
  {
    seq(|ps|, i requires 0 <= i < |ps| => FormatPixel(ps[i]))
  }

  lemma {:induction false} ForwardedOnly(ps: seq<Pixel>, effects: seq<Effect>)
    requires |effects| == |ps|
    requires forall i :: 0 <= i < |ps| ==> effects[i] == Forward(ps[i])
    ensures Forwarded(effects) == ps
    ensures Written(effects) == ""
    decreases |ps|
  {
    if |ps| > 0 {
      ForwardedOnly(ps[1..], effects[1..]);
    }
  }

  /**
    A client that only sends well-formed draw lines has every pixel
    forwarded, in its order, gets no reply, and disconnects cleanly.
   */
  lemma DrawingSession(ps: seq<Pixel>, size: Size)
    ensures Process(PixelLines(ps), size).result.Ok?
    ensures Forwarded(Process(PixelLines(ps), size).effects) == ps
    ensures Written(Process(PixelLines(ps), size).effects) == ""
  {
    var lines := PixelLines(ps);
    forall i | 0 <= i < |ps| ensures Dispatch(lines[i], size) == Continue(Forward(ps[i])) {
      DrawLineForwards(ps[i], size);
    }
    ForwardedOnly(ps, Process(lines, size).effects);
  }
}
