/**
 * The launcher's message box: the quoting of command-line arguments for the restart it can
 * trigger, and the default and cancel results its builder derives from the button set.
 */
module MessageBox {
  import opened Wrappers

  // ---- Quoting one argument ----

  /** `n` backslashes. */
  function Backslashes(n: nat): (s: string)
    ensures |s| == n && forall i :: 0 <= i < n ==> s[i] == '\\'
  {
    seq(n, _ => '\\')
  }

  lemma BackslashesSucc(n: nat)
    ensures Backslashes(n + 1) == Backslashes(n) + "\\"
    ensures Backslashes(n + 1) == "\\" + Backslashes(n)
  {
  }

  /** The characters that make an argument need quotes: space, tab, newline, vertical tab, quote. */
  predicate IsSpecial(c: char)
  {
    c == ' ' || c == '\t' || c == '\n' || c == '\U{000B}' || c == '"'
  }

  /** `argument.IndexOfAny(" \t\n\v\"") == -1`. */
  predicate NoSpecial(s: string)
  {
    forall i :: 0 <= i < |s| ==> !IsSpecial(s[i])
  }

  /**
   * The quoted body of `s` when `pending` backslashes have been read and not yet written:
   * backslashes wait; before a quote they are doubled and one more escapes the quote; before
   * any other character they are written as they are; at the end they are doubled.
   */
  function QuotedBody(s: string, pending: nat): string
  {
    if s == [] then Backslashes(2 * pending)
    else if s[0] == '\\' then QuotedBody(s[1..], pending + 1)
    else if s[0] == '"' then Backslashes(2 * pending + 1) + "\"" + QuotedBody(s[1..], 0)
    else Backslashes(pending) + [s[0]] + QuotedBody(s[1..], 0)
  }

  /** EncodeParameterArgument as a function of its inputs. */
  function Encode(argument: string, force: bool): string
  {
    if !force && |argument| > 0 && NoSpecial(argument) then argument
    else "\"" + QuotedBody(argument, 0) + "\""
  }

  /** Backslashes read from the input join the pending ones. */
  lemma {:induction false} QuotedBodyBackslashes(m: nat, x: string, pending: nat)
    ensures QuotedBody(Backslashes(m) + x, pending) == QuotedBody(x, pending + m)
    decreases m
  {
    if m > 0 {
      var t := Backslashes(m) + x;
      assert t[0] == '\\' && t[1..] == Backslashes(m - 1) + x;
      assert QuotedBody(t, pending) == QuotedBody(t[1..], pending + 1);
      QuotedBodyBackslashes(m - 1, x, pending + 1);
    } else {
      assert Backslashes(m) + x == x;
    }
  }

  /**
   * The three rules of the quoting: a quote after n backslashes becomes 2n+1 backslashes and
   * the quote; n backslashes before any other character stay as they are; n backslashes at
   * the end are doubled.
   */
  lemma QuotingRules(n: nat, c: char, rest: string)
    ensures QuotedBody(Backslashes(n) + "\"" + rest, 0) == Backslashes(2 * n + 1) + "\"" + QuotedBody(rest, 0)
    ensures c != '\\' && c != '"' ==> QuotedBody(Backslashes(n) + [c] + rest, 0) == Backslashes(n) + [c] + QuotedBody(rest, 0)
    ensures QuotedBody(Backslashes(n), 0) == Backslashes(2 * n)
  {
    assert Backslashes(n) + "\"" + rest == Backslashes(n) + ("\"" + rest);
    QuotedBodyBackslashes(n, "\"" + rest, 0);
    assert ("\"" + rest)[1..] == rest;
    assert Backslashes(n) + [c] + rest == Backslashes(n) + ([c] + rest);
    QuotedBodyBackslashes(n, [c] + rest, 0);
    assert ([c] + rest)[1..] == rest;
    assert Backslashes(n) == Backslashes(n) + [];
    QuotedBodyBackslashes(n, [], 0);
  }

  /** An argument that needs no quotes is returned as it is; any other is wrapped in quotes, and "" stands for the empty one. */
  lemma EncodeShape(argument: string, force: bool)
    ensures !force && |argument| > 0 && NoSpecial(argument) ==> Encode(argument, force) == argument
    ensures var e := Encode(argument, force);
      (force || |argument| == 0 || !NoSpecial(argument)) ==> |e| >= 2 && e[0] == '"' && e[|e| - 1] == '"'
    ensures Encode("", force) == "\"\""
  {
  }

  /** The quoting loop of EncodeParameterArgument over a string builder and a backslash counter. */
  method EncodeParameterArgument(argument: string, force: bool) returns (s: string)
    ensures s == Encode(argument, force)
  {
    if !force && |argument| > 0 && NoSpecial(argument) {
      return argument;
    }
    var quoted := "\"";
    var numberBackslashes := 0;
    var i := 0;
    while i < |argument|
      invariant 0 <= i <= |argument|
      invariant quoted + QuotedBody(argument[i..], numberBackslashes) == "\"" + QuotedBody(argument, 0)
    {
      var chr := argument[i];
      assert argument[i..][1..] == argument[i + 1..];
      if chr == '\\' {
        numberBackslashes := numberBackslashes + 1;
        i := i + 1;
        continue;
      } else if chr == '"' {
        quoted := quoted + Backslashes(numberBackslashes * 2 + 1) + [chr];
      } else {
        quoted := quoted + Backslashes(numberBackslashes) + [chr];
      }
      numberBackslashes := 0;
      i := i + 1;
    }
    assert argument[i..] == [];
    quoted := quoted + Backslashes(numberBackslashes * 2) + "\"";
    s := quoted;
  }

  // ---- Reading arguments back, as the Windows command-line parser does ----

  predicate IsArgSpace(c: char) { c == ' ' || c == '\t' }

  /**
   * Reads one argument from the front of a command line. `quoted` tells whether a quote is
   * open and `pending` counts the backslashes read and not yet interpreted: 2n backslashes
   * before a quote give n backslashes and toggle quoting, 2n+1 give n backslashes and a
   * literal quote, and backslashes before anything else are literal. A space or tab outside
   * quotes ends the argument. The result is the argument and the text left after it.
   */
  function ReadArgument(t: string, quoted: bool, pending: nat): (r: (string, string))
    ensures |r.1| <= |t|
    ensures |t| > 0 && (quoted || !IsArgSpace(t[0])) ==> |r.1| < |t|
  {
    if t == [] then (Backslashes(pending), [])
    else if t[0] == '\\' then ReadArgument(t[1..], quoted, pending + 1)
    else if t[0] == '"' && pending % 2 == 0 then Prepend(Backslashes(pending / 2), ReadArgument(t[1..], !quoted, 0))
    else if t[0] == '"' then Prepend(Backslashes(pending / 2) + "\"", ReadArgument(t[1..], quoted, 0))
    else if IsArgSpace(t[0]) && !quoted then (Backslashes(pending), t)
    else Prepend(Backslashes(pending) + [t[0]], ReadArgument(t[1..], quoted, 0))
  }

  /** Puts text in front of the argument read. */
  function Prepend(p: string, r: (string, string)): (string, string)
  {
    (p + r.0, r.1)
  }

  /** Backslashes in the text join the pending ones. */
  lemma {:induction false} ReadBackslashes(m: nat, x: string, quoted: bool, pending: nat)
    ensures ReadArgument(Backslashes(m) + x, quoted, pending) == ReadArgument(x, quoted, pending + m)
    decreases m
  {
    if m > 0 {
      var t := Backslashes(m) + x;
      assert t[0] == '\\' && t[1..] == Backslashes(m - 1) + x;
      assert ReadArgument(t, quoted, pending) == ReadArgument(t[1..], quoted, pending + 1);
      ReadBackslashes(m - 1, x, quoted, pending + 1);
    } else {
      assert Backslashes(m) + x == x;
    }
  }

  /** A quote after an even number of backslashes toggles quoting; after an odd number it is kept. */
  lemma ReadQuote(y: string, quoted: bool, pending: nat)
    ensures pending % 2 == 0 ==> ReadArgument("\"" + y, quoted, pending) == Prepend(Backslashes(pending / 2), ReadArgument(y, !quoted, 0))
    ensures pending % 2 == 1 ==> ReadArgument("\"" + y, quoted, pending) == Prepend(Backslashes(pending / 2) + "\"", ReadArgument(y, quoted, 0))
  {
    assert ("\"" + y)[1..] == y;
  }

  /** Any other character is taken as it is, after the pending backslashes, unless it ends the argument. */
  lemma ReadOrdinary(c: char, y: string, quoted: bool, pending: nat)
    requires c != '\\' && c != '"' && (quoted || !IsArgSpace(c))
    ensures ReadArgument([c] + y, quoted, pending) == Prepend(Backslashes(pending) + [c], ReadArgument(y, quoted, 0))
  {
    assert ([c] + y)[1..] == y;
  }

  /** Text that ends an argument outside quotes: nothing, or a space or tab. */
  predicate EndsArgument(rest: string)
  {
    rest == [] || IsArgSpace(rest[0])
  }

  lemma ReadEnds(rest: string)
    requires EndsArgument(rest)
    ensures ReadArgument(rest, false, 0) == ("", rest)
  {
  }

  /** Reading the end of a quoted body: the doubled trailing backslashes, then the closing quote. */
  lemma ReadQuotedEnd(pending: nat, rest: string)
    requires EndsArgument(rest)
    ensures ReadArgument(QuotedBody([], pending) + "\"" + rest, true, 0) == (Backslashes(pending), rest)
  {
    var tail := "\"" + rest;
    assert QuotedBody([], pending) + "\"" + rest == Backslashes(2 * pending) + tail;
    ReadBackslashes(2 * pending, tail, true, 0);
    assert (2 * pending) / 2 == pending && (2 * pending) % 2 == 0;
    ReadQuote(rest, true, 2 * pending);
    ReadEnds(rest);
    assert Backslashes(pending) + "" == Backslashes(pending);
  }

  /** Reading a quoted body, then its closing quote, gives back the text it quotes. */
  lemma {:induction false} ReadQuotedBody(s: string, pending: nat, rest: string)
    requires EndsArgument(rest)
    ensures ReadArgument(QuotedBody(s, pending) + "\"" + rest, true, 0) == (Backslashes(pending) + s, rest)
    decreases |s|
  {
    if s == [] {
      ReadQuotedEnd(pending, rest);
      assert Backslashes(pending) + s == Backslashes(pending);
    } else if s[0] == '\\' {
      ReadQuotedBody(s[1..], pending + 1, rest);
      BackslashesSucc(pending);
      assert Backslashes(pending) + s == Backslashes(pending + 1) + s[1..];
    } else if s[0] == '"' {
      ReadQuotedQuote(s, pending, rest);
    } else {
      ReadQuotedOrdinary(s, pending, rest);
    }
  }

  lemma {:induction false} ReadQuotedQuote(s: string, pending: nat, rest: string)
    requires EndsArgument(rest) && |s| > 0 && s[0] == '"'
    ensures ReadArgument(QuotedBody(s, pending) + "\"" + rest, true, 0) == (Backslashes(pending) + s, rest)
    decreases |s|, 0
  {
    var y := QuotedBody(s[1..], 0) + "\"" + rest;
    var t := QuotedBody(s, pending) + "\"" + rest;
    var inner := ReadArgument(y, true, 0);
    assert inner == (s[1..], rest) by {
      ReadQuotedBody(s[1..], 0, rest);
      assert Backslashes(0) + s[1..] == s[1..];
    }
    assert ReadArgument(t, true, 0) == ReadArgument("\"" + y, true, 2 * pending + 1) by {
      assert t == Backslashes(2 * pending + 1) + ("\"" + y);
      ReadBackslashes(2 * pending + 1, "\"" + y, true, 0);
    }
    assert ReadArgument("\"" + y, true, 2 * pending + 1) == Prepend(Backslashes(pending) + "\"", inner) by {
      assert (2 * pending + 1) / 2 == pending && (2 * pending + 1) % 2 == 1;
      ReadQuote(y, true, 2 * pending + 1);
    }
    assert Backslashes(pending) + "\"" + s[1..] == Backslashes(pending) + s;
  }

  lemma {:induction false} ReadQuotedOrdinary(s: string, pending: nat, rest: string)
    requires EndsArgument(rest) && |s| > 0 && s[0] != '"' && s[0] != '\\'
    ensures ReadArgument(QuotedBody(s, pending) + "\"" + rest, true, 0) == (Backslashes(pending) + s, rest)
    decreases |s|, 0
  {
    var y := QuotedBody(s[1..], 0) + "\"" + rest;
    var t := QuotedBody(s, pending) + "\"" + rest;
    var inner := ReadArgument(y, true, 0);
    assert inner == (s[1..], rest) by {
      ReadQuotedBody(s[1..], 0, rest);
      assert Backslashes(0) + s[1..] == s[1..];
    }
    assert ReadArgument(t, true, 0) == ReadArgument([s[0]] + y, true, pending) by {
      assert t == Backslashes(pending) + ([s[0]] + y);
      ReadBackslashes(pending, [s[0]] + y, true, 0);
    }
    assert ReadArgument([s[0]] + y, true, pending) == Prepend(Backslashes(pending) + [s[0]], inner) by {
      ReadOrdinary(s[0], y, true, pending);
    }
    assert Backslashes(pending) + [s[0]] + s[1..] == Backslashes(pending) + s;
  }

  /** Reading an argument that needs no quotes gives it back, backslashes included. */
  lemma {:induction false} ReadPlain(s: string, pending: nat, rest: string)
    requires NoSpecial(s) && EndsArgument(rest)
    ensures ReadArgument(s + rest, false, pending) == (Backslashes(pending) + s, rest)
    decreases |s|
  {
    if s == [] {
      assert s + rest == rest;
      assert Backslashes(pending) + s == Backslashes(pending);
    } else {
      assert NoSpecial(s[1..]) by {
        assert forall i :: 0 <= i < |s[1..]| ==> s[1..][i] == s[i + 1];
      }
      assert !IsSpecial(s[0]);
      var y := s[1..] + rest;
      assert s + rest == [s[0]] + y;
      if s[0] == '\\' {
        assert ReadArgument(s + rest, false, pending) == ReadArgument(y, false, pending + 1);
        ReadPlain(s[1..], pending + 1, rest);
        BackslashesSucc(pending);
        assert Backslashes(pending) + s == Backslashes(pending + 1) + s[1..];
      } else {
        var inner := ReadArgument(y, false, 0);
        assert inner == (s[1..], rest) by {
          ReadPlain(s[1..], 0, rest);
          assert Backslashes(0) + s[1..] == s[1..];
        }
        assert ReadArgument([s[0]] + y, false, pending) == Prepend(Backslashes(pending) + [s[0]], inner) by {
          ReadOrdinary(s[0], y, false, pending);
        }
        assert Backslashes(pending) + [s[0]] + s[1..] == Backslashes(pending) + s;
      }
    }
  }

  /** The encoded argument reads back as the argument, and the parser stops right after it. */
  lemma EncodeRoundTrip(argument: string, force: bool, rest: string)
    requires EndsArgument(rest)
    ensures ReadArgument(Encode(argument, force) + rest, false, 0) == (argument, rest)
  {
    if !force && |argument| > 0 && NoSpecial(argument) {
      ReadPlain(argument, 0, rest);
      assert Backslashes(0) + argument == argument;
    } else {
      var y := QuotedBody(argument, 0) + "\"" + rest;
      assert Encode(argument, force) + rest == "\"" + y;
      ReadQuote(y, false, 0);
      ReadQuotedBody(argument, 0, rest);
      assert Backslashes(0) + argument == argument;
      assert Backslashes(0 / 2) + argument == argument;
    }
  }

  /** An encoded argument never starts with a space or tab. */
  lemma EncodeStartsArgument(argument: string, force: bool)
    ensures var e := Encode(argument, force); |e| > 0 && !IsArgSpace(e[0])
  {
  }

  function SkipArgSpace(t: string): (u: string)
    ensures |u| <= |t| && (u == [] || !IsArgSpace(u[0]))
  {
    if t != [] && IsArgSpace(t[0]) then SkipArgSpace(t[1..]) else t
  }

  /** The whole command line split into arguments, as the program's argv. */
  function ReadArguments(t: string): seq<string>
    decreases |t|
  {
    var u := SkipArgSpace(t);
    if u == [] then []
    else
      var r := ReadArgument(u, false, 0);
      [r.0] + ReadArguments(r.1)
  }

  /** The restart command line: the arguments encoded and joined by spaces. */
  function CommandLine(args: seq<string>): string
  {
    if args == [] then ""
    else if |args| == 1 then Encode(args[0], false)
    else Encode(args[0], false) + " " + CommandLine(args[1..])
  }

  /** The restarted program reads back exactly the arguments it was given. */
  lemma {:induction false} CommandLineRoundTrip(args: seq<string>)
    ensures ReadArguments(CommandLine(args)) == args
  {
    if |args| == 1 {
      EncodeStartsArgument(args[0], false);
      EncodeRoundTrip(args[0], false, "");
      assert Encode(args[0], false) + "" == Encode(args[0], false);
      assert ReadArguments("") == [];
    } else if |args| > 1 {
      var e := Encode(args[0], false);
      var rest := CommandLine(args[1..]);
      EncodeStartsArgument(args[0], false);
      EncodeRoundTrip(args[0], false, " " + rest);
      assert e + " " + rest == e + (" " + rest);
      CommandLineRoundTrip(args[1..]);
      assert SkipArgSpace(" " + rest) == SkipArgSpace(rest) by {
        assert (" " + rest)[1..] == rest;
      }
      CommandLineStarts(args[1..]);
    }
  }

  /** A non-empty command line starts with an argument. */
  lemma CommandLineStarts(args: seq<string>)
    requires |args| >= 1
    ensures var c := CommandLine(args); |c| > 0 && !IsArgSpace(c[0]) && SkipArgSpace(c) == c
  {
    EncodeStartsArgument(args[0], false);
  }

  // ---- Default and cancel results ----

  datatype MessageBoxButton = OK | OKCancel | YesNoCancel | YesNo | Undefined(code: int)

  datatype MessageBoxResult = None | OK | Cancel | Yes | No

  /** The number of buttons a defined button set shows. */
  function ButtonCount(b: MessageBoxButton): nat
  {
    match b
    case OK => 1
    case OKCancel => 2
    case YesNoCancel => 3
    case YesNo => 2
    case Undefined(_) => 0
  }

  /** The result of clicking button `k` (1 to 3); any other combination throws NotImplemented. */
  function ButtonResult(b: MessageBoxButton, k: nat): Result<MessageBoxResult>
  {
    match b
    case OK => if k == 1 then Ok(MessageBoxResult.OK) else Err(NotImplemented)
    case OKCancel =>
      if k == 1 then Ok(MessageBoxResult.OK) else if k == 2 then Ok(MessageBoxResult.Cancel) else Err(NotImplemented)
    case YesNoCancel =>
      if k == 1 then Ok(MessageBoxResult.Yes)
      else if k == 2 then Ok(MessageBoxResult.No)
      else if k == 3 then Ok(MessageBoxResult.Cancel)
      else Err(NotImplemented)
    case YesNo =>
      if k == 1 then Ok(MessageBoxResult.Yes) else if k == 2 then Ok(MessageBoxResult.No) else Err(NotImplemented)
    case Undefined(_) => Err(NotImplemented)
  }

  /** The result on Enter when none was set. */
  function DefaultFor(b: MessageBoxButton): Result<MessageBoxResult>
  {
    match b
    case OK => Ok(MessageBoxResult.OK)
    case OKCancel => Ok(MessageBoxResult.OK)
    case YesNoCancel => Ok(MessageBoxResult.Yes)
    case YesNo => Ok(MessageBoxResult.Yes)
    case Undefined(_) => Err(NotImplemented)
  }

  /** The result on Escape when none was set. */
  function CancelFor(b: MessageBoxButton): Result<MessageBoxResult>
  {
    match b
    case OK => Ok(MessageBoxResult.OK)
    case OKCancel => Ok(MessageBoxResult.Cancel)
    case YesNoCancel => Ok(MessageBoxResult.Cancel)
    case YesNo => Ok(MessageBoxResult.No)
    case Undefined(_) => Err(NotImplemented)
  }

  /** Enter defaults to the first button, Escape to the last; an undefined set has neither. */
  lemma DefaultsAreButtons(b: MessageBoxButton)
    ensures DefaultFor(b).Ok? <==> !b.Undefined?
    ensures CancelFor(b).Ok? <==> !b.Undefined?
    ensures !b.Undefined? ==> DefaultFor(b) == ButtonResult(b, 1) && CancelFor(b) == ButtonResult(b, ButtonCount(b))
    ensures DefaultFor(b).Ok? ==> DefaultFor(b).value != MessageBoxResult.None
    ensures CancelFor(b).Ok? ==> CancelFor(b).value != MessageBoxResult.None
  {
  }

  /** The builder's state that the results depend on. */
  datatype Choice = Choice(buttons: MessageBoxButton, defaultResult: MessageBoxResult, cancelResult: MessageBoxResult)

  /**
   * ShowAssumingDispatcherThread's first two statements: a result that is set is kept,
   * one that is None is derived from the buttons. An undefined button set throws at the
   * first derivation it needs, after the assignments before it.
   */
  function ResolveSpec(c: Choice): (r: (Choice, Result<()>))
  {
    var d := if c.defaultResult != MessageBoxResult.None then Ok(c.defaultResult) else DefaultFor(c.buttons);
    if d.Err? then (c, Err(d.error))
    else
      var c1 := c.(defaultResult := d.value);
      var x := if c.cancelResult != MessageBoxResult.None then Ok(c.cancelResult) else CancelFor(c.buttons);
      if x.Err? then (c1, Err(x.error))
      else (c1.(cancelResult := x.value), Ok(()))
  }

  /** Results given explicitly are kept; unset ones become the buttons'; afterwards neither is None. */
  lemma ResolveKeepsOrDerives(c: Choice)
    ensures var (r, e) := ResolveSpec(c);
      && r.buttons == c.buttons
      && (e.Ok? <==> (c.defaultResult != MessageBoxResult.None || !c.buttons.Undefined?)
                     && (c.cancelResult != MessageBoxResult.None || !c.buttons.Undefined?))
      && (e.Err? ==> e.error == NotImplemented)
      && (e.Ok? ==> r.defaultResult == (if c.defaultResult != MessageBoxResult.None then c.defaultResult
                                        else DefaultFor(c.buttons).value))
      && (e.Ok? ==> r.cancelResult == (if c.cancelResult != MessageBoxResult.None then c.cancelResult
                                       else CancelFor(c.buttons).value))
      && (e.Ok? ==> r.defaultResult != MessageBoxResult.None && r.cancelResult != MessageBoxResult.None)
  {
  }

  /** Resolving again changes nothing. */
  lemma ResolveIdempotent(c: Choice)
    requires ResolveSpec(c).1.Ok?
    ensures ResolveSpec(ResolveSpec(c).0) == (ResolveSpec(c).0, Ok(()))
  {
    ResolveKeepsOrDerives(c);
  }

  class Builder {
    var buttons: MessageBoxButton
    var defaultResult: MessageBoxResult
    var cancelResult: MessageBoxResult

    function State(): Choice
      reads this
    {
      Choice(buttons, defaultResult, cancelResult)
    }

    constructor ()
      ensures State() == Choice(MessageBoxButton.OK, MessageBoxResult.None, MessageBoxResult.None)
    {
      buttons := MessageBoxButton.OK;
      defaultResult := MessageBoxResult.None;
      cancelResult := MessageBoxResult.None;
    }

    method WithButtons(b: MessageBoxButton)
      modifies this
      ensures State() == old(State()).(buttons := b)
    {
      buttons := b;
    }

    method WithDefaultResult(r: MessageBoxResult)
      modifies this
      ensures State() == old(State()).(defaultResult := r)
    {
      defaultResult := r;
    }

    method WithCancelResult(r: MessageBoxResult)
      modifies this
      ensures State() == old(State()).(cancelResult := r)
    {
      cancelResult := r;
    }

    /** The result assignments at the start of ShowAssumingDispatcherThread. */
    method ResolveResults() returns (e: Result<()>)
      modifies this
      ensures (State(), e) == ResolveSpec(old(State()))
    {
      if defaultResult == MessageBoxResult.None {
        var d := DefaultFor(buttons);
        if d.Err? {
          return Err(d.error);
        }
        defaultResult := d.value;
      }
      if cancelResult == MessageBoxResult.None {
        var x := CancelFor(buttons);
        if x.Err? {
          return Err(x.error);
        }
        cancelResult := x.value;
      }
      e := Ok(());
    }
  }
}
