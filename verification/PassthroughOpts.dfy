/** The option parser that keeps unknown options (pavelib/utils/passthrough_opts.py:25-134). */
module PassthroughOpts {
  import opened Text

  /** How many values an option takes; zero for a flag. */
  datatype Spec = Spec(nargs: nat)

  /** The options a parser knows. `matchLong` gives the full name of a possibly abbreviated long option, or None when
      there is no such option or more than one. */
  datatype Known = Known(long: map<string, Spec>, short: map<char, Spec>, matchLong: string -> Option<string>)

  ghost predicate ValidKnown(known: Known) {
    (forall s :: known.matchLong(s).Some? ==> known.matchLong(s).value in known.long) && '-' !in known.short
  }

  /** A recognised option, processed with its values. */
  datatype Event = Long(name: string, values: seq<string>) | Short(letter: char, letterValues: seq<string>)

  /** What one argument comes to: the arguments left, what is passed through and what is processed;
      or the error that ends the program. */
  datatype Effect = Effect(rest: seq<string>, passed: seq<string>, events: seq<Event>) | Error

  // ---------- Specification ----------

  /** The option name and the attached value of a long argument. */
  function SplitLong(arg: string): (string, Option<string>) {
    match FindChar(arg, {'='}, 0, |arg|)
    case None => (arg, None)
    case Some(k) => (arg[..k], Some(arg[k + 1..]))
  }

  /** The name has no equals sign, and name, sign and value are the argument again. */
  lemma {:induction false} SplitLongRebuilds(arg: string)
    ensures var (opt, value) := SplitLong(arg);
      '=' !in opt && arg == if value.Some? then opt + "=" + value.value else opt
  {
    var k := FindChar(arg, {'='}, 0, |arg|);
    if k.Some? {
      assert arg == arg[..k.value] + [arg[k.value]] + arg[k.value + 1..];
    }
  }

  function LongEffect(known: Known, arg: string, tail: seq<string>): (e: Effect)
    requires ValidKnown(known)
    ensures e.Effect? ==> |e.rest| <= |tail|
  {
    var (opt, value) := SplitLong(arg);
    match known.matchLong(opt)
    case None => Effect(tail, [arg], [])
    case Some(name) =>
      var nargs := known.long[name].nargs;
      var available := if value.Some? then [value.value] + tail else tail;
      if nargs == 0 then if value.Some? then Error else Effect(tail, [], [Long(name, [])])
      else if |available| < nargs then Error
      else Effect(available[nargs..], [], [Long(name, available[..nargs])])
  }

  /** Unknown letters are passed through as a cluster of their own. */
  function PassedAs(unknown: string): seq<string> {
    if unknown == "" then [] else ["-" + unknown]
  }

  /** The letters of a cluster: unknown ones are collected, flags processed, and the first option that takes a value
      takes the letters after it, if there are any, as its first value. */
  function ClusterEffect(known: Known, letters: string, tail: seq<string>, unknown: string,
                         events: seq<Event>): (e: Effect)
    ensures e.Effect? ==> |e.rest| <= |tail|
    decreases |letters|
  {
    if letters == "" then Effect(tail, PassedAs(unknown), events)
    else
      var c, after := letters[0], letters[1..];
      if c !in known.short then ClusterEffect(known, after, tail, unknown + [c], events)
      else
        var nargs := known.short[c].nargs;
        if nargs == 0 then ClusterEffect(known, after, tail, unknown, events + [Short(c, [])])
        else
          var available := if after == "" then tail else [after] + tail;
          if |available| < nargs then Error
          else ClusterEffect(known, "", available[nargs..], unknown, events + [Short(c, available[..nargs])])
  }

  function ShortEffect(known: Known, arg: string, tail: seq<string>): Effect
    requires |arg| >= 1
  {
    ClusterEffect(known, arg[1..], tail, "", [])
  }

  // ---------- What is left, and where each letter goes ----------

  /** `rest` is what remains of the tail after some arguments were taken from its front. */
  predicate IsSuffix(rest: seq<string>, tail: seq<string>) {
    |rest| <= |tail| && rest == tail[|tail| - |rest|..]
  }

  /** A long argument leaves a suffix of the arguments behind it; if it is not known it is passed through as it was
      and nothing else is taken. */
  lemma {:induction false} LongLeavesSuffix(known: Known, arg: string, tail: seq<string>)
    requires ValidKnown(known) && LongEffect(known, arg, tail).Effect?
    ensures var e := LongEffect(known, arg, tail);
      && IsSuffix(e.rest, tail) && |e.passed| + |e.events| == 1
      && (e.passed != [] ==> e == Effect(tail, [arg], []))
  {
    var (opt, value) := SplitLong(arg);
    hide SplitLong;
    var name := known.matchLong(opt);
    if name.Some? && known.long[name.value].nargs > 0 {
      var nargs := known.long[name.value].nargs;
      if value.Some? {
        assert ([value.value] + tail)[nargs..] == tail[nargs - 1..];
      }
    }
  }

  /** The letters of a cluster before position `split` that are, or are not, known. */
  function Letters(known: Known, letters: string, wanted: bool): string {
    if letters == "" then ""
    else (if (letters[0] in known.short) == wanted then [letters[0]] else "") + Letters(known, letters[1..], wanted)
  }

  function EventLetters(events: seq<Event>): string {
    if events == [] then ""
    else
      var n := |events| - 1;
      EventLetters(events[..n]) + if events[n].Short? then [events[n].letter] else ""
  }

  lemma {:induction false} EventLettersNext(events: seq<Event>, c: char, values: seq<string>, more: string)
    ensures EventLetters(events + [Short(c, values)]) + more == EventLetters(events) + ([c] + more)
  {
  }

  lemma {:induction false} LettersStep(known: Known, letters: string, n: nat, wanted: bool)
    requires letters != "" && n <= |letters| - 1
    ensures Letters(known, letters[..n + 1], wanted)
         == (if (letters[0] in known.short) == wanted then [letters[0]] else "")
            + Letters(known, letters[1..][..n], wanted)
  {
    assert letters[..n + 1][1..] == letters[1..][..n];
  }

  /** The cluster is cut in two: every letter before the cut is passed through if it is unknown and processed if it
      is known, in order, and the letters after the cut, if any, are the first value of the last processed option. */
  ghost predicate CutAt(known: Known, letters: string, split: nat, unknown: string, events: seq<Event>, e: Effect) {
    && split <= |letters| && e.Effect?
    && e.passed == PassedAs(unknown + Letters(known, letters[..split], false))
    && EventLetters(e.events) == EventLetters(events) + Letters(known, letters[..split], true)
    && (split < |letters| ==>
          e.events != [] && var last := e.events[|e.events| - 1];
            last.Short? && last.letterValues != [] && last.letterValues[0] == letters[split..])
  }

  lemma {:induction false} CutAfterUnknown(known: Known, letters: string, n: nat, unknown: string, events: seq<Event>,
                                           e: Effect)
    requires letters != "" && letters[0] !in known.short
    requires CutAt(known, letters[1..], n, unknown + [letters[0]], events, e)
    ensures CutAt(known, letters, n + 1, unknown, events, e)
  {
    hide EventLetters, PassedAs;
    LettersStep(known, letters, n, true);
    LettersStep(known, letters, n, false);
    var more := Letters(known, letters[1..][..n], false);
    assert (unknown + [letters[0]]) + more == unknown + ([letters[0]] + more);
    assert letters[1..][n..] == letters[n + 1..];
    assert "" + Letters(known, letters[1..][..n], true) == Letters(known, letters[1..][..n], true);
  }

  lemma {:induction false} CutAfterFlag(known: Known, letters: string, n: nat, unknown: string, events: seq<Event>,
                                        e: Effect)
    requires letters != "" && letters[0] in known.short
    requires CutAt(known, letters[1..], n, unknown, events + [Short(letters[0], [])], e)
    ensures CutAt(known, letters, n + 1, unknown, events, e)
  {
    EventLettersNext(events, letters[0], [], Letters(known, letters[1..][..n], true));
    hide EventLetters, PassedAs;
    LettersStep(known, letters, n, true);
    LettersStep(known, letters, n, false);
    assert letters[1..][n..] == letters[n + 1..];
    assert "" + Letters(known, letters[1..][..n], false) == Letters(known, letters[1..][..n], false);
  }

  lemma {:induction false} CutAtValue(known: Known, letters: string, unknown: string, events: seq<Event>,
                                      values: seq<string>, rest: seq<string>)
    requires letters != "" && letters[0] in known.short && values != []
    requires letters[1..] != "" ==> values[0] == letters[1..]
    ensures CutAt(known, letters, 1, unknown, events,
                  Effect(rest, PassedAs(unknown), events + [Short(letters[0], values)]))
  {
    EventLettersNext(events, letters[0], values, "");
    hide EventLetters, PassedAs;
    LettersStep(known, letters, 0, true);
    LettersStep(known, letters, 0, false);
    assert letters[1..][..0] == "";
    assert forall w: string :: w + "" == w;
  }

  /** Whatever the letters, the cluster is cut, and what is left is a suffix of the arguments behind it. */
  lemma {:induction false} ClusterIsCut(known: Known, letters: string, tail: seq<string>, unknown: string,
                                        events: seq<Event>)
    returns (split: nat)
    requires ClusterEffect(known, letters, tail, unknown, events).Effect?
    ensures CutAt(known, letters, split, unknown, events, ClusterEffect(known, letters, tail, unknown, events))
    ensures IsSuffix(ClusterEffect(known, letters, tail, unknown, events).rest, tail)
    decreases |letters|
  {
    if letters == "" {
      split := 0;
      assert unknown + "" == unknown && EventLetters(events) + "" == EventLetters(events);
    } else {
      hide CutAt, PassedAs;
      var c, after := letters[0], letters[1..];
      if c !in known.short {
        var n := ClusterIsCut(known, after, tail, unknown + [c], events);
        CutAfterUnknown(known, letters, n, unknown, events, ClusterEffect(known, letters, tail, unknown, events));
        split := n + 1;
      } else if known.short[c].nargs == 0 {
        var n := ClusterIsCut(known, after, tail, unknown, events + [Short(c, [])]);
        CutAfterFlag(known, letters, n, unknown, events, ClusterEffect(known, letters, tail, unknown, events));
        split := n + 1;
      } else {
        var available := if after == "" then tail else [after] + tail;
        var nargs := known.short[c].nargs;
        CutAtValue(known, letters, unknown, events, available[..nargs], available[nargs..]);
        split := 1;
      }
    }
  }

  // ---------- The values taken ----------

  lemma {:induction false} SplitLongIs(opt: string, value: string)
    requires '=' !in opt
    ensures SplitLong(opt) == (opt, None) && SplitLong(opt + "=" + value) == (opt, Some(value))
  {
    var arg := opt + "=" + value;
    var k := FindChar(arg, {'='}, 0, |arg|);
    assert arg[|opt|] == '=' && forall i :: 0 <= i < |opt| ==> arg[i] == opt[i];
    assert k == Some(|opt|);
    assert arg[..|opt|] == opt && arg[|opt| + 1..] == value;
  }

  /** A known long option takes as many values as it needs, the one attached by an equals sign first and then those
      behind it, and leaves the others; it fails if there are too few, or a value is attached to a flag. */
  lemma {:induction false} LongTakesValues(known: Known, opt: string, attached: Option<string>, tail: seq<string>)
    requires ValidKnown(known) && '=' !in opt
    ensures var arg := if attached.Some? then opt + "=" + attached.value else opt;
      var available := (if attached.Some? then [attached.value] else []) + tail;
      match known.matchLong(opt)
      case None => LongEffect(known, arg, tail) == Effect(tail, [arg], [])
      case Some(name) =>
        var e, nargs := LongEffect(known, arg, tail), known.long[name].nargs;
        && (e.Error? <==> (nargs == 0 && attached.Some?) || |available| < nargs)
        && (e.Effect? ==>
              && e.passed == [] && |e.events| == 1 && e.events[0].Long? && e.events[0].name == name
              && |e.events[0].values| == nargs && e.events[0].values + e.rest == available)
  {
    SplitLongIs(opt, if attached.Some? then attached.value else "");
    hide SplitLong, LongEffect, ValidKnown;
    var arg := if attached.Some? then opt + "=" + attached.value else opt;
    assert SplitLong(arg) == (opt, attached);
    SplitTakesValues(known, arg, opt, attached, tail);
  }

  lemma {:induction false} SplitTakesValues(known: Known, arg: string, opt: string, attached: Option<string>,
                                            tail: seq<string>)
    requires ValidKnown(known) && SplitLong(arg) == (opt, attached)
    ensures var available := (if attached.Some? then [attached.value] else []) + tail;
      match known.matchLong(opt)
      case None => LongEffect(known, arg, tail) == Effect(tail, [arg], [])
      case Some(name) =>
        name in known.long
        && var e, nargs := LongEffect(known, arg, tail), known.long[name].nargs;
           && (e.Error? <==> (nargs == 0 && attached.Some?) || |available| < nargs)
           && (e.Effect? ==>
                 && e.passed == [] && |e.events| == 1 && e.events[0].Long? && e.events[0].name == name
                 && |e.events[0].values| == nargs && e.events[0].values + e.rest == available)
  {
    hide SplitLong;
    assert [] + tail == tail;
    var name := known.matchLong(opt);
    if name.Some? {
      var available := (if attached.Some? then [attached.value] else []) + tail;
      TakenAndLeft(available, known.long[name.value].nargs);
    }
  }

  lemma {:induction false} TakenAndLeft(available: seq<string>, n: nat)
    ensures n <= |available| ==> available[..n] + available[n..] == available
    ensures n == 0 ==> [] + available == available
  {
  }

  /** The flags among some letters, in order. */
  function Flags(known: Known, letters: string): seq<Event> {
    if letters == "" then []
    else (if letters[0] in known.short then [Short(letters[0], [])] else []) + Flags(known, letters[1..])
  }

  /** The letters before k are unknown or flags, and the one at k, if any, needs a value. */
  predicate FirstValued(known: Known, letters: string, k: nat) {
    && k <= |letters|
    && (forall j :: 0 <= j < k && letters[j] in known.short ==> known.short[letters[j]].nargs == 0)
    && (k < |letters| ==> letters[k] in known.short && known.short[letters[k]].nargs > 0)
  }

  /** The events of the letters before k, and what is passed of them, after what was there before. */
  predicate Spends(known: Known, letters: string, k: nat, tail: seq<string>, unknown: string, events: seq<Event>,
                   e: Effect)
    requires k <= |letters|
  {
    var others, flags := unknown + Letters(known, letters[..k], false), events + Flags(known, letters[..k]);
    var available := (if k + 1 < |letters| then [letters[k + 1..]] else []) + tail;
    var nargs := if k < |letters| && letters[k] in known.short then known.short[letters[k]].nargs else 0;
    && (e.Error? <==> |available| < nargs)
    && (e.Effect? ==>
          && e.passed == (if others == "" then [] else ["-" + others])
          && if k == |letters| then e.events == flags && e.rest == tail
             else
               && |e.events| == |flags| + 1 && flags <= e.events
               && var last := e.events[|flags|];
                  && last.Short? && last.letter == letters[k] && |last.letterValues| == nargs
                  && last.letterValues + e.rest == available)
  }

  lemma {:induction false} SpendsStep(known: Known, letters: string, k: nat, tail: seq<string>, unknown: string,
                                      events: seq<Event>, e: Effect)
    requires letters != "" && k <= |letters| - 1
    requires var here := letters[0] in known.short;
      Spends(known, letters[1..], k, tail, if here then unknown else unknown + [letters[0]],
             if here then events + [Short(letters[0], [])] else events, e)
    ensures Spends(known, letters, k + 1, tail, unknown, events, e)
  {
    var c, more := letters[0], letters[1..];
    assert letters[..k + 1][1..] == more[..k] && letters[..k + 1][0] == c;
    assert k < |more| ==> more[k] == letters[k + 1] && more[k + 1..] == letters[k + 2..];
    var rest, flags := Letters(known, more[..k], false), Flags(known, more[..k]);
    assert (unknown + [c]) + rest == unknown + ([c] + rest) && "" + rest == rest;
    assert (events + [Short(c, [])]) + flags == events + ([Short(c, [])] + flags) && [] + flags == flags;
    hide Letters, Flags;
  }

  lemma {:induction false} SpendsAtOnce(known: Known, letters: string, tail: seq<string>, unknown: string,
                                        events: seq<Event>)
    requires FirstValued(known, letters, 0)
    ensures Spends(known, letters, 0, tail, unknown, events, ClusterEffect(known, letters, tail, unknown, events))
  {
    assert letters[..0] == "" && unknown + "" == unknown && events + [] == events && [] + tail == tail;
    if letters != "" {
      var c, after := letters[0], letters[1..];
      var available := if after == "" then tail else [after] + tail;
      var nargs := known.short[c].nargs;
      hide Letters, Flags;
      if |available| >= nargs {
        assert ClusterEffect(known, letters, tail, unknown, events)
            == ClusterEffect(known, "", available[nargs..], unknown, events + [Short(c, available[..nargs])])
            == Effect(available[nargs..], PassedAs(unknown), events + [Short(c, available[..nargs])]);
      }
    }
  }

  lemma {:induction false} ClusterStep(known: Known, letters: string, tail: seq<string>, unknown: string,
                                       events: seq<Event>, k: nat)
    requires k > 0 && FirstValued(known, letters, k)
    ensures var c, more := letters[0], letters[1..];
      && FirstValued(known, more, k - 1)
      && ClusterEffect(known, letters, tail, unknown, events)
         == ClusterEffect(known, more, tail, if c in known.short then unknown else unknown + [c],
                          if c in known.short then events + [Short(c, [])] else events)
  {
    assert forall j :: 0 <= j < k - 1 ==> letters[1..][j] == letters[j + 1];
  }

  lemma {:induction false} ClusterSpends(known: Known, letters: string, k: nat, tail: seq<string>, unknown: string,
                                         events: seq<Event>)
    requires FirstValued(known, letters, k)
    ensures Spends(known, letters, k, tail, unknown, events, ClusterEffect(known, letters, tail, unknown, events))
    decreases |letters|
  {
    if k == 0 {
      SpendsAtOnce(known, letters, tail, unknown, events);
    } else {
      var c, more := letters[0], letters[1..];
      ClusterStep(known, letters, tail, unknown, events, k);
      hide *;
      ClusterSpends(known, more, k - 1, tail, if c in known.short then unknown else unknown + [c],
                    if c in known.short then events + [Short(c, [])] else events);
      SpendsStep(known, letters, k - 1, tail, unknown, events, ClusterEffect(known, letters, tail, unknown, events));
    }
  }

  /** Up to the first letter that needs a value, a cluster's unknown letters are passed through together and its flags
      processed in order. That letter takes as many values as it needs, what is left of the cluster first and then
      what is behind it; the cluster fails if there are too few. */
  lemma {:induction false} ClusterTakesValues(known: Known, arg: string, tail: seq<string>)
    requires |arg| >= 1
    ensures exists k: nat ::
      FirstValued(known, arg[1..], k) && Spends(known, arg[1..], k, tail, "", [], ShortEffect(known, arg, tail))
  {
    var letters, k := arg[1..], 0;
    while k < |letters| && (letters[k] in known.short ==> known.short[letters[k]].nargs == 0)
      invariant k <= |letters|
      invariant forall j :: 0 <= j < k && letters[j] in known.short ==> known.short[letters[j]].nargs == 0
    {
      k := k + 1;
    }
    ClusterSpends(known, letters, k, tail, "", []);
  }

  // ---------- The parser ----------

  class PassthroughOptionParser {
    const known: Known
    var rargs: seq<string>
    var passthroughOptions: seq<string>
    var processed: seq<Event>

    constructor (known: Known, args: seq<string>)
      ensures this.known == known && rargs == args && passthroughOptions == [] && processed == []
    {
      this.known, rargs, passthroughOptions, processed := known, args, [], [];
    }

    /** _process_long_opt: takes the first argument, and the values it needs, off the front of `rargs`. */
    method ProcessLongOpt() returns (ok: bool)
      requires rargs != [] && ValidKnown(known)
      modifies this
      ensures ok == LongEffect(known, old(rargs)[0], old(rargs)[1..]).Effect?
      ensures ok ==>
        var e := LongEffect(known, old(rargs)[0], old(rargs)[1..]);
        && rargs == e.rest && passthroughOptions == old(passthroughOptions) + e.passed
        && processed == old(processed) + e.events
    {
      var arg := rargs[0];
      rargs := rargs[1..];
      ghost var tail := rargs;
      var (opt, nextArg) := SplitLong(arg);
      if nextArg.Some? {
        rargs := [nextArg.value] + rargs;
      }
      var name := known.matchLong(opt);
      if name.None? {
        passthroughOptions := passthroughOptions + [arg];
        if nextArg.Some? {
          assert rargs[1..] == tail;
          rargs := rargs[1..];
        }
        return true;
      }
      var nargs := known.long[name.value].nargs;
      var values := [];
      if nargs > 0 {
        if |rargs| < nargs {
          return false;
        }
        values := rargs[..nargs];
        rargs := rargs[nargs..];
      } else if nextArg.Some? {
        return false;
      }
      processed := processed + [Long(name.value, values)];
      ok := true;
    }

    /** _process_short_opts: takes a cluster of letters, and the values they need, off the front of `rargs`. */
    method ProcessShortOpts() returns (ok: bool)
      requires rargs != [] && |rargs[0]| >= 1
      modifies this
      ensures ok == ShortEffect(known, old(rargs)[0], old(rargs)[1..]).Effect?
      ensures ok ==>
        var e := ShortEffect(known, old(rargs)[0], old(rargs)[1..]);
        && rargs == e.rest && passthroughOptions == old(passthroughOptions) + e.passed
        && processed == old(processed) + e.events
    {
      var arg := rargs[0];
      rargs := rargs[1..];
      var letters := arg[1..];
      ghost var effect := ShortEffect(known, arg, rargs);
      var passthroughOpts := "";
      var events: seq<Event> := [];
      var i := 0;
      while i < |letters|
        invariant i <= |letters|
        invariant ClusterEffect(known, letters[i..], rargs, passthroughOpts, events) == effect
        invariant passthroughOptions == old(passthroughOptions) && processed == old(processed)
      {
        var c := letters[i];
        i := i + 1;
        assert letters[i - 1..][1..] == letters[i..];
        if c !in known.short {
          passthroughOpts := passthroughOpts + [c];
          continue;
        }
        var nargs := known.short[c].nargs;
        var values := [];
        if nargs > 0 {
          var stop := i < |letters|;
          if stop {
            rargs := [letters[i..]] + rargs;
            i := |letters|;
          }
          if |rargs| < nargs {
            return false;
          }
          values := rargs[..nargs];
          rargs := rargs[nargs..];
        }
        events := events + [Short(c, values)];
      }
      if passthroughOpts != "" {
        passthroughOptions := passthroughOptions + ["-" + passthroughOpts];
      }
      processed := processed + events;
      ok := true;
    }
  }

  // ---------- Parsing a list of arguments ----------

  datatype Parse = Parsed(passed: seq<string>, events: seq<Event>, left: seq<string>) | Failed

  function Then(passed: seq<string>, events: seq<Event>, left: seq<string>, next: Parse): Parse {
    if next.Failed? then Failed else Parsed(passed + next.passed, events + next.events, left + next.left)
  }

  /** The standard parser's loop over its arguments, with the two methods in their places: "--" ends the options,
      and an argument that is no option is skipped or ends them. */
  function ParseArgs(known: Known, interspersed: bool, args: seq<string>): Parse
    requires ValidKnown(known)
    decreases |args|
  {
    if args == [] then Parsed([], [], [])
    else
      var arg, tail := args[0], args[1..];
      if arg == "--" then Parsed([], [], tail)
      else if "-" <= arg && |arg| > 1 then
        match if "--" <= arg then LongEffect(known, arg, tail) else ShortEffect(known, arg, tail)
        case Error => Failed
        case Effect(rest, passed, events) => Then(passed, events, [], ParseArgs(known, interspersed, rest))
      else if interspersed then Then([], [], [arg], ParseArgs(known, interspersed, tail))
      else Parsed([], [], args)
  }

  /** An argument made of unknown letters, or an unknown long option. */
  predicate PassedForm(known: Known, e: string) {
    && "-" <= e && |e| > 1
    && (!("--" <= e) ==> forall c :: c in e[1..] ==> c !in known.short)
  }

  /** If e begins with two dashes, it is read again as an unknown long option. */
  predicate ReadAsUnknown(known: Known, e: string) {
    "--" <= e ==> e != "--" && known.matchLong(SplitLong(e).0).None?
  }

  lemma {:induction false} UnknownLetters(known: Known, letters: string, tail: seq<string>, unknown: string,
                                          events: seq<Event>)
    requires forall c :: c in letters ==> c !in known.short
    ensures ClusterEffect(known, letters, tail, unknown, events) == Effect(tail, PassedAs(unknown + letters), events)
    decreases |letters|
  {
    if letters == "" {
      assert unknown + letters == unknown;
    } else {
      UnknownLetters(known, letters[1..], tail, unknown + [letters[0]], events);
      assert unknown + [letters[0]] + letters[1..] == unknown + letters;
    }
  }

  /** An argument of that form is read again as itself. */
  lemma {:induction false} ReadsAsItself(known: Known, interspersed: bool, e: string, tail: seq<string>)
    requires ValidKnown(known) && PassedForm(known, e) && ReadAsUnknown(known, e)
    ensures ParseArgs(known, interspersed, [e] + tail) == Then([e], [], [], ParseArgs(known, interspersed, tail))
  {
    assert ([e] + tail)[1..] == tail;
    if !("--" <= e) {
      UnknownLetters(known, e[1..], tail, "", []);
      assert "-" + ("" + e[1..]) == e;
    }
  }

  lemma {:induction false} PassedNoMoreThanArgs(known: Known, interspersed: bool, args: seq<string>)
    requires ValidKnown(known) && ParseArgs(known, interspersed, args).Parsed?
    ensures |ParseArgs(known, interspersed, args).passed| <= |args|
    decreases |args|
  {
    if args != [] {
      var arg, tail := args[0], args[1..];
      if arg != "--" {
        if "-" <= arg && |arg| > 1 {
          if "--" <= arg {
            PassedNoMoreThanArgs(known, interspersed, LongEffect(known, arg, tail).rest);
          } else {
            var split := ClusterIsCut(known, arg[1..], tail, "", []);
            PassedNoMoreThanArgs(known, interspersed, ShortEffect(known, arg, tail).rest);
          }
        } else if interspersed {
          PassedNoMoreThanArgs(known, interspersed, tail);
        }
      }
    }
  }

  /** Reading what was passed through gives it back unchanged if and only if none of it that begins with two dashes
      is "--" or is a known option. */
  lemma {:induction false} ReparseIff(known: Known, interspersed: bool, passed: seq<string>)
    requires ValidKnown(known) && forall e :: e in passed ==> PassedForm(known, e)
    ensures ParseArgs(known, interspersed, passed) == Parsed(passed, [], [])
        <==> forall e :: e in passed ==> ReadAsUnknown(known, e)
    decreases |passed|
  {
    if passed != [] {
      var e, tail := passed[0], passed[1..];
      assert passed == [e] + tail;
      if ReadAsUnknown(known, e) {
        ReadsAsItself(known, interspersed, e, tail);
        ReparseIff(known, interspersed, tail);
      } else if e != "--" && LongEffect(known, e, tail).Effect? {
        var rest := LongEffect(known, e, tail).rest;
        if ParseArgs(known, interspersed, rest).Parsed? {
          PassedNoMoreThanArgs(known, interspersed, rest);
        }
      }
    }
  }

  lemma {:induction false} LettersAreUnknown(known: Known, letters: string)
    ensures forall c :: c in Letters(known, letters, false) ==> c in letters && c !in known.short
  {
    if letters != "" {
      LettersAreUnknown(known, letters[1..]);
    }
  }

  /** No cluster of letters has a dash inside. */
  predicate NoInnerDash(args: seq<string>) {
    forall a :: a in args && "-" <= a && !("--" <= a) ==> '-' !in a[1..]
  }

  lemma {:induction false} ClusterPasses(known: Known, arg: string, tail: seq<string>, e: string)
    requires "-" <= arg && !("--" <= arg) && |arg| > 1
    requires ShortEffect(known, arg, tail).Effect? && e in ShortEffect(known, arg, tail).passed
    ensures PassedForm(known, e) && ('-' !in arg[1..] ==> ReadAsUnknown(known, e))
  {
    var letters := arg[1..];
    var split := ClusterIsCut(known, letters, tail, "", []);
    var u := Letters(known, letters[..split], false);
    LettersAreUnknown(known, letters[..split]);
    assert e in PassedAs("" + u);
    hide ClusterEffect, CutAt, EventLetters, Letters;
    PassedCluster(known, u, e);
    if "--" <= e {
      assert u[0] == '-' && u[0] in letters[..split];
    }
  }

  lemma {:induction false} PassedCluster(known: Known, u: string, e: string)
    requires e in PassedAs("" + u) && forall c :: c in u ==> c !in known.short
    ensures PassedForm(known, e) && u != "" && e == "-" + u && ("--" <= e ==> u[0] == '-')
  {
    assert "" + u == u && ("-" + u)[1..] == u;
  }

  lemma {:induction false} SuffixMember(rest: seq<string>, tail: seq<string>)
    requires IsSuffix(rest, tail)
    ensures NoInnerDash(tail) ==> NoInnerDash(rest)
  {
  }

  /** What one call passes through is a cluster of unknown letters or an unknown long option. */
  lemma {:induction false} PassedHasForm(known: Known, interspersed: bool, args: seq<string>, e: string)
    requires ValidKnown(known) && ParseArgs(known, interspersed, args).Parsed?
    requires e in ParseArgs(known, interspersed, args).passed
    ensures PassedForm(known, e) && (NoInnerDash(args) ==> ReadAsUnknown(known, e))
    decreases |args|
  {
    var arg, tail := args[0], args[1..];
    SuffixMember(tail, args);
    if "-" <= arg && |arg| > 1 {
      var effect := if "--" <= arg then LongEffect(known, arg, tail) else ShortEffect(known, arg, tail);
      assert e in effect.passed || e in ParseArgs(known, interspersed, effect.rest).passed;
      EffectPasses(known, arg, tail, effect);
      hide LongEffect, ClusterEffect, NoInnerDash, PassedForm, ReadAsUnknown, IsSuffix;
      SuffixMember(effect.rest, tail);
      if e in effect.passed {
        EffectPassesForm(known, arg, tail, effect, e);
        InnerDashOf(args);
      } else {
        PassedHasForm(known, interspersed, effect.rest, e);
      }
    } else {
      hide NoInnerDash, PassedForm, ReadAsUnknown;
      PassedHasForm(known, interspersed, tail, e);
    }
  }

  lemma {:induction false} InnerDashOf(args: seq<string>)
    requires args != []
    ensures NoInnerDash(args) && "-" <= args[0] && !("--" <= args[0]) ==> '-' !in args[0][1..]
  {
  }

  lemma {:induction false} EffectPasses(known: Known, arg: string, tail: seq<string>, effect: Effect)
    requires ValidKnown(known) && "-" <= arg && |arg| > 1 && effect.Effect?
    requires effect == if "--" <= arg then LongEffect(known, arg, tail) else ShortEffect(known, arg, tail)
    ensures IsSuffix(effect.rest, tail)
  {
    if "--" <= arg {
      LongLeavesSuffix(known, arg, tail);
    } else {
      var split := ClusterIsCut(known, arg[1..], tail, "", []);
    }
  }

  lemma {:induction false} EffectPassesForm(known: Known, arg: string, tail: seq<string>, effect: Effect, e: string)
    requires ValidKnown(known) && "-" <= arg && |arg| > 1 && arg != "--" && effect.Effect? && e in effect.passed
    requires effect == if "--" <= arg then LongEffect(known, arg, tail) else ShortEffect(known, arg, tail)
    ensures PassedForm(known, e) && ("--" <= arg || '-' !in arg[1..] ==> ReadAsUnknown(known, e))
  {
    if "--" <= arg {
      LongLeavesSuffix(known, arg, tail);
    } else {
      ClusterPasses(known, arg, tail, e);
    }
  }

  /** When no cluster has a dash inside, parsing the options that were passed through passes the same ones through
      again, in order, and finds nothing else. */
  lemma {:induction false} ReparseUnchanged(known: Known, interspersed: bool, args: seq<string>)
    requires ValidKnown(known) && ParseArgs(known, interspersed, args).Parsed? && NoInnerDash(args)
    ensures var passed := ParseArgs(known, interspersed, args).passed;
      ParseArgs(known, interspersed, passed) == Parsed(passed, [], [])
  {
    var passed := ParseArgs(known, interspersed, args).passed;
    forall e | e in passed
      ensures PassedForm(known, e) && ReadAsUnknown(known, e)
    {
      PassedHasForm(known, interspersed, args, e);
    }
    ReparseIff(known, interspersed, passed);
  }

  lemma {:induction false} DashedCluster(known: Known)
    requires known.short == map['a' := Spec(0)]
    ensures ShortEffect(known, "-a-", []) == Effect([], ["--"], [Short('a', [])])
  {
    assert "-a-"[1..] == "a-" && "a-"[1..] == "-" && "-"[1..] == "";
    assert "" + "-" == "-" && "-" + "-" == "--";
    assert ClusterEffect(known, "", [], "-", [Short('a', [])]) == Effect([], ["--"], [Short('a', [])]);
    assert ClusterEffect(known, "-", [], "", [Short('a', [])]) == Effect([], ["--"], [Short('a', [])]);
  }

  /** With a dash inside it may not: the flag -a is taken out of "-a-", and the "--" that is left passes nothing. */
  lemma {:induction false} InnerDashExample(known: Known, interspersed: bool)
    requires ValidKnown(known) && known.short == map['a' := Spec(0)]
    ensures ParseArgs(known, interspersed, ["-a-"]) == Parsed(["--"], [Short('a', [])], [])
    ensures ParseArgs(known, interspersed, ["--"]) == Parsed([], [], [])
  {
    DashedCluster(known);
    assert ["-a-"][1..] == [] && ["--"][1..] == [];
    hide ShortEffect;
    assert ParseArgs(known, interspersed, []) == Parsed([], [], []);
  }
}
