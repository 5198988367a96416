/**
  The log stream (`cmd_log.c`): the text of a sequence of log calls, with a
  level tag in front of every line that does not bring its own.
 */
module LogStream {

  /** The text starts with a level tag of its own. */
  predicate Tagged(s: string) {
    |s| >= 3 && s[0] == '<' && '0' <= s[1] <= '7' && s[2] == '>'
  }

  /** The tag of the default message level. */
  const DEFAULT_TAG := "<4>"

  /** What a call adds to the stream; `open` says that a line is under way. */
  function Emit(open: bool, text: string): (out: string)
    decreases |text|, !open
  {
    if text == "" then ""
    else if open then [text[0]] + Emit(text[0] != '\n', text[1..])
    else if Tagged(text) then Emit(true, text)
    else DEFAULT_TAG + Emit(true, text)
  }

  /** A line is under way after the text. */
  function Open(open: bool, text: string): bool {
    if text == "" then open else text[|text| - 1] != '\n'
  }

  function EmitAll(open: bool, calls: seq<string>): string
    decreases |calls|
  {
    if calls == [] then ""
    else Emit(open, calls[0]) + EmitAll(Open(open, calls[0]), calls[1..])
  }

  function Joined(calls: seq<string>): string {
    if calls == [] then "" else calls[0] + Joined(calls[1..])
  }

  function OpenAll(open: bool, calls: seq<string>): bool
    decreases |calls|
  {
    if calls == [] then open else OpenAll(Open(open, calls[0]), calls[1..])
  }

  lemma {:induction false} EmitAllConcat(open: bool, a: seq<string>, b: seq<string>)
    ensures EmitAll(open, a + b) == EmitAll(open, a) + EmitAll(OpenAll(open, a), b)
    ensures OpenAll(open, a + b) == OpenAll(OpenAll(open, a), b)
    decreases |a|
  {
    hide Emit, Open;
    if a == [] {
      assert a + b == b;
    } else {
      assert (a + b)[1..] == a[1..] + b;
      EmitAllConcat(Open(open, a[0]), a[1..], b);
    }
  }

  lemma EmitAllOne(open: bool, call: string)
    ensures EmitAll(open, [call]) == Emit(open, call)
    ensures OpenAll(open, [call]) == Open(open, call)
  {
    hide Emit;
    assert Emit(open, call) + "" == Emit(open, call);
    assert EmitAll(Open(open, call), [call][1..]) == "";
  }

  // ---- every line carries a tag ----

  /** Position `i` starts a line. */
  predicate LineStart(open: bool, s: string, i: nat) {
    i < |s| && (if i == 0 then !open else s[i - 1] == '\n')
  }

  lemma {:induction false} LinesTagged(open: bool, text: string, i: nat)
    requires LineStart(open, Emit(open, text), i)
    ensures Tagged(Emit(open, text)[i..])
    decreases |text|, !open
  {
    if open {
      var rest := Emit(text[0] != '\n', text[1..]);
      assert Emit(open, text) == [text[0]] + rest;
      hide Emit;
      LinesTagged(text[0] != '\n', text[1..], i - 1);
      TailOf([text[0]], rest, i - 1);
    } else if Tagged(text) {
      if i == 0 {
        OpenCopies(text, 3);
        StillTagged(text, Emit(true, text));
      } else {
        LinesTagged(true, text, i);
      }
    } else {
      var rest := Emit(true, text);
      assert Emit(open, text) == DEFAULT_TAG + rest;
      hide Emit;
      if i > 3 {
        LinesTagged(true, text, i - 3);
        TailOf(DEFAULT_TAG, rest, i - 3);
      }
    }
  }

  lemma TailOf(a: string, b: string, j: nat)
    requires j <= |b|
    ensures (a + b)[|a| + j..] == b[j..]
  {
  }

  lemma StillTagged(text: string, out: string)
    requires Tagged(text) && |out| >= 3 && out[..3] == text[..3]
    ensures Tagged(out)
  {
    assert forall i :: 0 <= i < 3 ==> out[i] == out[..3][i] == text[..3][i];
  }

  /** Up to and including its first line feed, a line under way goes out as it is. */
  lemma {:induction false} OpenCopies(text: string, n: nat)
    requires n <= |text| && (n > 0 ==> '\n' !in text[..n - 1])
    ensures |Emit(true, text)| >= n && Emit(true, text)[..n] == text[..n]
  {
    if n > 1 {
      assert text[0] in text[..n - 1];
      assert text[1..][..n - 2] == text[..n - 1][1..];
      OpenCopies(text[1..], n - 1);
      assert text[..n] == [text[0]] + text[1..][..n - 1];
    }
  }

  /** A call that adds nothing had no text; any other ends the stream as its text ends. */
  lemma {:induction false} EmitEnds(open: bool, text: string)
    requires text != ""
    ensures var out := Emit(open, text);
            out != "" && (out[|out| - 1] != '\n') == Open(open, text)
    decreases |text|, !open
  {
    if open {
      if |text| > 1 {
        EmitEnds(text[0] != '\n', text[1..]);
      }
    } else {
      EmitEnds(true, text);
    }
  }

  /** Over any sequence of calls, every line of the stream starts with a tag. */
  lemma {:induction false} AllLinesTagged(open: bool, calls: seq<string>, i: nat)
    requires LineStart(open, EmitAll(open, calls), i)
    ensures Tagged(EmitAll(open, calls)[i..])
    decreases |calls|
  {
    var text := calls[0];
    var a, b := Emit(open, text), EmitAll(Open(open, text), calls[1..]);
    var out := EmitAll(open, calls);
    assert out == a + b;
    if i < |a| {
      assert i > 0 ==> out[i - 1] == a[i - 1];
      LinesTagged(open, text, i);
      assert a[i..] == out[i..|a|];
    } else {
      if text != "" {
        EmitEnds(open, text);
        assert |a| > 0 && out[|a| - 1] == a[|a| - 1];
      }
      assert i > |a| ==> out[i - 1] == b[i - |a| - 1];
      AllLinesTagged(Open(open, text), calls[1..], i - |a|);
      assert out[i..] == b[i - |a|..];
    }
  }

  /** The text without the tags at its line starts. */
  function Strip(open: bool, s: string): string
    decreases |s|
  {
    if s == "" then ""
    else if !open && Tagged(s) then Strip(true, s[3..])
    else [s[0]] + Strip(s[0] != '\n', s[1..])
  }

  /** Tagging adds tags and nothing else: the stream without tags is the text without its own tags. */
  lemma {:induction false} StripEmit(open: bool, text: string)
    ensures Strip(open, Emit(open, text)) == Strip(open, text)
    decreases |text|, !open
  {
    if text == "" {
    } else if open {
      StripEmit(text[0] != '\n', text[1..]);
      assert Emit(true, text)[1..] == Emit(text[0] != '\n', text[1..]);
    } else if Tagged(text) {
      StripEmit(true, text[3..]);
      TagGoesOut(text);
    } else {
      StripEmit(true, text);
      assert (DEFAULT_TAG + Emit(true, text))[3..] == Emit(true, text);
    }
  }

  lemma TagGoesOut(text: string)
    requires Tagged(text)
    ensures Emit(false, text) == text[..3] + Emit(true, text[3..])
    ensures Tagged(Emit(false, text)) && Emit(false, text)[3..] == Emit(true, text[3..])
  {
    assert text[1..][1..] == text[2..] && text[2..][1..] == text[3..];
    assert Emit(true, text) == [text[0]] + Emit(true, text[1..]);
    assert Emit(true, text[1..]) == [text[1]] + Emit(true, text[2..]);
    assert Emit(true, text[2..]) == [text[2]] + Emit(true, text[3..]);
  }

  // ---- how the text is cut into calls ----

  /** The last `k` characters of `a` start a line, and with `b` they begin with a tag. */
  predicate CutsAt(open: bool, a: string, b: string, k: nat) {
    k <= |a| && LineStart(open, a, |a| - k) && Tagged(a[|a| - k..] + b)
  }

  /** The cut between `a` and `b` falls inside the tag of a line of `a + b`. */
  predicate CutsTag(open: bool, a: string, b: string) {
    CutsAt(open, a, b, 1) || CutsAt(open, a, b, 2)
  }

  lemma CutsAtStep(open: bool, a: string, b: string, k: nat)
    requires 1 <= k <= 2 && a != "" && (open || Tagged(a) == Tagged(a + b))
    ensures CutsAt(open, a, b, k) == CutsAt(a[0] != '\n', a[1..], b, k)
  {
    assert |a| < 3 ==> !Tagged(a);
    hide Tagged;
    if k < |a| {
      CutsInside(open, a, b, k, |a| - k);
    } else if k == |a| {
      assert a[|a| - k..] == a;
    }
  }

  lemma CutsInside(open: bool, a: string, b: string, k: nat, i: nat)
    requires 0 < k < |a| && i == |a| - k
    ensures CutsAt(open, a, b, k) == CutsAt(a[0] != '\n', a[1..], b, k)
  {
    hide Tagged;
    var rest := a[1..];
    assert a[i..] == rest[i - 1..];
    assert i > 1 ==> a[i - 1] == rest[i - 2];
  }

  lemma CutsTagStep(open: bool, a: string, b: string)
    requires a != "" && (open || Tagged(a) == Tagged(a + b))
    ensures CutsTag(open, a, b) == CutsTag(a[0] != '\n', a[1..], b)
  {
    hide CutsAt;
    CutsAtStep(open, a, b, 1);
    CutsAtStep(open, a, b, 2);
  }

  /**
    Two calls give the stream of one exactly when the cut between them does not
    fall inside a tag; a tag that is cut costs one more default tag.
   */
  lemma {:induction false} SplitExact(open: bool, a: string, b: string)
    ensures Emit(open, a + b) == Emit(open, a) + Emit(Open(open, a), b) <==> !CutsTag(open, a, b)
    ensures CutsTag(open, a, b) ==> |Emit(open, a) + Emit(Open(open, a), b)| == |Emit(open, a + b)| + |DEFAULT_TAG|
    decreases |a|, !open
  {
    if a == "" {
      assert a + b == b;
    } else if open {
      var open' := a[0] != '\n';
      SplitExact(open', a[1..], b);
      CutsTagStep(open, a, b);
      assert (a + b)[1..] == a[1..] + b;
      assert Open(open, a) == Open(open', a[1..]);
      Peel(a[0], Emit(open', a[1..]), Emit(Open(open, a), b), Emit(open', a[1..] + b));
    } else {
      SplitExact(true, a, b);
      CutsTagStep(true, a, b);
      if Tagged(a) == Tagged(a + b) {
        CutsTagStep(false, a, b);
        if !Tagged(a) {
          PeelTag(Emit(true, a), Emit(Open(false, a), b), Emit(true, a + b));
        }
      } else {
        TagCut(a, b);
        PeelTag(Emit(true, a), Emit(Open(false, a), b), Emit(true, a + b));
      }
    }
  }

  lemma Peel(c: char, x: string, y: string, z: string)
    ensures [c] + z == ([c] + x) + y <==> z == x + y
  {
    assert ([c] + x) + y == [c] + (x + y);
    assert ([c] + z)[1..] == z && ([c] + (x + y))[1..] == x + y;
  }

  lemma PeelTag(x: string, y: string, z: string)
    ensures DEFAULT_TAG + z == (DEFAULT_TAG + x) + y <==> z == x + y
    ensures |(DEFAULT_TAG + x) + y| == 3 + |x + y|
  {
    assert (DEFAULT_TAG + x) + y == DEFAULT_TAG + (x + y);
    assert (DEFAULT_TAG + z)[3..] == z && (DEFAULT_TAG + (x + y))[3..] == x + y;
  }

  lemma TagCut(a: string, b: string)
    requires a != "" && Tagged(a) != Tagged(a + b)
    ensures CutsTag(false, a, b) && !CutsTag(true, a, b) && Tagged(a + b) && !Tagged(a)
  {
    assert forall i :: 0 <= i < |a| ==> (a + b)[i] == a[i];
    assert Tagged(a + b) && |a| <= 2;
    assert a[|a| - |a|..] == a;
    assert CutsAt(false, a, b, |a|);
  }

  /** No line of the text starts with '<'. */
  ghost predicate NoTags(open: bool, text: string) {
    forall i: nat :: LineStart(open, text, i) ==> text[i] != '<'
  }

  /** For text whose lines do not start with '<', the stream does not depend on how it is split into calls. */
  lemma {:induction false} SplitIndependent(open: bool, calls: seq<string>)
    requires NoTags(open, Joined(calls))
    ensures EmitAll(open, calls) == Emit(open, Joined(calls))
    decreases |calls|
  {
    if calls != [] {
      var a, b := calls[0], Joined(calls[1..]);
      NoTagsSplit(open, a, b);
      SplitExact(open, a, b);
      SplitIndependent(Open(open, a), calls[1..]);
    }
  }

  lemma NoTagsSplit(open: bool, a: string, b: string)
    requires NoTags(open, a + b)
    ensures NoTags(Open(open, a), b) && !CutsTag(open, a, b)
  {
    var s := a + b;
    forall i: nat | LineStart(Open(open, a), b, i)
      ensures b[i] != '<'
    {
      assert LineStart(open, s, |a| + i);
      assert s[|a| + i] == b[i];
    }
    NotCutAt(open, a, b, 1);
    NotCutAt(open, a, b, 2);
  }

  lemma NotCutAt(open: bool, a: string, b: string, k: nat)
    requires NoTags(open, a + b) && 1 <= k
    ensures !CutsAt(open, a, b, k)
  {
    if k <= |a| && LineStart(open, a, |a| - k) {
      var i: nat := |a| - k;
      assert i > 0 ==> (a + b)[i - 1] == a[i - 1];
      assert LineStart(open, a + b, i);
      assert a[i..][0] == a[i] == (a + b)[i];
    }
  }

  // ---- after a reset in the middle of a line ----

  lemma {:induction false} NoFeedCopies(text: string)
    requires '\n' !in text
    ensures Emit(true, text) == text && Open(true, text)
  {
    if text != "" {
      assert '\n' !in text[1..];
      NoFeedCopies(text[1..]);
      assert text == [text[0]] + text[1..];
    }
  }

  /** The first line of a stream that begins in the middle of a line is that of the text. */
  lemma {:induction false} FirstLineCopied(calls: seq<string>, n: nat)
    requires n <= |Joined(calls)| && (n > 0 ==> '\n' !in Joined(calls)[..n - 1])
    ensures |EmitAll(true, calls)| >= n && EmitAll(true, calls)[..n] == Joined(calls)[..n]
    decreases |calls|
  {
    if n > 0 {
      var a, b := calls[0], Joined(calls[1..]);
      if n <= |a| {
        assert (a + b)[..n - 1] == a[..n - 1] && (a + b)[..n] == a[..n];
        OpenCopies(a, n);
        FrontOf(Emit(true, a), EmitAll(Open(true, a), calls[1..]), n);
      } else {
        var m := n - |a|;
        assert (a + b)[..n - 1] == a + b[..m - 1] && (a + b)[..n] == a + b[..m];
        NoFeedCopies(a);
        FirstLineCopied(calls[1..], m);
      }
    }
  }

  lemma FrontOf(a: string, b: string, n: nat)
    requires n <= |a|
    ensures (a + b)[..n] == a[..n]
  {
  }

  lemma {:induction false} NoFeedAll(calls: seq<string>)
    requires '\n' !in Joined(calls)
    ensures EmitAll(true, calls) == Joined(calls)
    decreases |calls|
  {
    if calls != [] {
      var a, b := calls[0], Joined(calls[1..]);
      assert forall c :: c in a || c in b ==> c in a + b;
      NoFeedCopies(a);
      NoFeedAll(calls[1..]);
    }
  }

  /** Position of the first line feed. */
  lemma {:induction false} FirstFeed(s: string) returns (p: nat)
    requires '\n' in s
    ensures p < |s| && s[p] == '\n' && '\n' !in s[..p]
  {
    if s[0] == '\n' {
      p := 0;
    } else {
      assert s == [s[0]] + s[1..];
      var q := FirstFeed(s[1..]);
      p := q + 1;
      assert s[..p] == [s[0]] + s[1..][..q];
    }
  }

  /** A stream that begins in the middle of a line begins with a tag exactly when the text does. */
  lemma TagFromText(calls: seq<string>)
    ensures Tagged(EmitAll(true, calls)) <==> Tagged(Joined(calls))
  {
    hide EmitAll, Joined;
    var s, j := EmitAll(true, calls), Joined(calls);
    if '\n' in j {
      var p := FirstFeed(j);
      FirstLineCopied(calls, p + 1);
      assert s[..p + 1][p] == '\n' && j[..p + 1][p] == '\n';
      assert forall i :: 0 <= i <= p ==> s[i] == s[..p + 1][i] == j[i];
    } else {
      NoFeedAll(calls);
    }
  }

  /** Every line, the first one included, starts with a tag. */
  ghost predicate AllTagged(s: string) {
    forall i: nat :: LineStart(false, s, i) ==> Tagged(s[i..])
  }

  /** After a reset with the line open or closed, every line of the stream starts with a tag if and only if the line was
      closed, nothing was logged, or the logged text begins with a tag of its own. */
  lemma ResetExact(open: bool, calls: seq<string>)
    ensures AllTagged(EmitAll(open, calls)) <==> !open || Joined(calls) == "" || Tagged(Joined(calls))
  {
    hide EmitAll, Joined, Tagged;
    var s := EmitAll(open, calls);
    assert s[0..] == s;
    forall i: nat | LineStart(open, s, i)
      ensures Tagged(s[i..])
    {
      AllLinesTagged(open, calls, i);
    }
    if open {
      TagFromText(calls);
      if Joined(calls) == "" {
        NoFeedAll(calls);
      } else {
        FirstLineCopied(calls, 1);
        assert LineStart(false, s, 0);
      }
      assert forall i: nat :: LineStart(false, s, i) && i > 0 ==> LineStart(open, s, i);
    }
  }

  /** The calls that `log append` makes for its first `n` arguments. */
  function AppendCalls(args: seq<string>, n: nat): seq<string>
    requires n <= |args|
  {
    if n == 0 then []
    else AppendCalls(args, n - 1) + [args[n - 1], [if n < |args| then ' ' else '\n']]
  }

  // ---- runs ----

  datatype Event = Say(text: string) | PutChar(c: char) | AppendArgs(args: seq<string>) | Reset

  /** The texts an event logs. */
  function CallsOf(e: Event): seq<string> {
    match e
    case Say(text) => [text]
    case PutChar(c) => [if c == '\0' then "" else [c]]
    case AppendArgs(args) => AppendCalls(args, |args|)
    case Reset => []
  }

  /** Was the line open at the last reset, what was logged since, and is it open now? */
  datatype Since = Since(atReset: bool, calls: seq<string>, open: bool)

  function After(events: seq<Event>): Since {
    if events == [] then Since(false, [], false)
    else
      var s, e := After(events[..|events| - 1]), events[|events| - 1];
      if e.Reset? then Since(s.open, [], s.open)
      else Since(s.atReset, s.calls + CallsOf(e), OpenAll(s.open, CallsOf(e)))
  }

  /** The stream after any run of calls and resets. */
  function StreamAfter(events: seq<Event>): string {
    EmitAll(After(events).atReset, After(events).calls)
  }

  lemma {:induction false} OpenAfter(events: seq<Event>)
    ensures var s := After(events); s.open == OpenAll(s.atReset, s.calls)
  {
    if events != [] {
      var s, e := After(events[..|events| - 1]), events[|events| - 1];
      OpenAfter(events[..|events| - 1]);
      EmitAllConcat(s.atReset, s.calls, CallsOf(e));
    }
  }

  /** Over every run of calls and resets, every line of the stream starts with a tag if and only if the last reset fell
      between two lines, nothing was logged since, or what was logged begins with a tag of its own. */
  lemma RunTagged(events: seq<Event>)
    ensures var s := After(events);
            AllTagged(StreamAfter(events)) <==> !s.atReset || Joined(s.calls) == "" || Tagged(Joined(s.calls))
  {
    ResetExact(After(events).atReset, After(events).calls);
  }

  /** A run without a reset has all its lines tagged. */
  lemma {:induction false} NoResetTagged(events: seq<Event>)
    requires forall e :: e in events ==> !e.Reset?
    ensures !After(events).atReset && AllTagged(StreamAfter(events))
  {
    if events != [] {
      NoResetTagged(events[..|events| - 1]);
    }
    RunTagged(events);
  }

  /** Concretely: a reset in the middle of "ab" and "c" leaves a line without a tag. */
  lemma ResetLosesTag()
    ensures StreamAfter([Say("ab"), Reset, Say("c")]) == "c" && !AllTagged("c")
  {
    var e1, e2, e3 := [Say("ab")], [Say("ab"), Reset], [Say("ab"), Reset, Say("c")];
    assert e1[..0] == [] && e2[..1] == e1 && e3[..2] == e2;
    assert After(e1) == Since(false, ["ab"], true) by {
      EmitAllOne(false, "ab");
      assert [] + ["ab"] == ["ab"];
    }
    assert After(e2) == Since(true, [], true);
    assert After(e3).atReset && After(e3).calls == ["c"];
    EmitAllOne(true, "c");
    NoFeedCopies("c");
    assert LineStart(false, "c", 0) && !Tagged("c"[0..]);
  }

  // ---- tags and separators, in their own characters ----

  /** A tag is a digit from 0 to 7 between angle brackets. */
  lemma TagExact(s: string)
    ensures Tagged(s) <==>
            |s| >= 3 && (s[..3] == "<0>" || s[..3] == "<1>" || s[..3] == "<2>" || s[..3] == "<3>" ||
                         s[..3] == "<4>" || s[..3] == "<5>" || s[..3] == "<6>" || s[..3] == "<7>")
  {
    if |s| >= 3 {
      var t := s[..3];
      assert t[0] == s[0] && t[1] == s[1] && t[2] == s[2];
      if Tagged(s) {
        assert t == ['<', s[1], '>'];
      }
    }
  }

  /** A line that brings no tag of its own gets level 4. */
  lemma UntaggedIsLevel4(text: string)
    requires text != "" && !Tagged(text)
    ensures Emit(false, text) == "<4>" + Emit(true, text)
  {
  }

  lemma {:induction false} JoinedConcat(a: seq<string>, b: seq<string>)
    ensures Joined(a + b) == Joined(a) + Joined(b)
  {
    if a == [] {
      assert a + b == b;
    } else {
      assert (a + b)[1..] == a[1..] + b;
      JoinedConcat(a[1..], b);
    }
  }

  /** Words with one space between them. */
  function Spaced(words: seq<string>): string
    requires words != []
  {
    if |words| == 1 then words[0] else Spaced(words[..|words| - 1]) + " " + words[|words| - 1]
  }

  lemma JoinedPair(a: string, b: string)
    ensures Joined([a, b]) == a + b
  {
    assert [a, b][1..] == [b] && [b][1..] == [];
    assert Joined([b]) == b + Joined([]);
    assert b + "" == b;
  }

  lemma {:induction false} AppendPrefix(args: seq<string>, n: nat)
    requires 0 < n <= |args|
    ensures Joined(AppendCalls(args, n)) == Spaced(args[..n]) + (if n < |args| then " " else "\n")
  {
    var sep: string := [if n < |args| then ' ' else '\n'];
    JoinedPair(args[n - 1], sep);
    JoinedConcat(AppendCalls(args, n - 1), [args[n - 1], sep]);
    hide Joined;
    if n == 1 {
      assert AppendCalls(args, 0) == [];
      NoneJoined();
      assert args[..1] == [args[0]];
    } else {
      AppendPrefix(args, n - 1);
      assert args[..n][..n - 1] == args[..n - 1];
    }
  }

  lemma NoneJoined()
    ensures Joined([]) == ""
  {
  }

  /** `log append` logs its arguments with one space between them and a line feed at the end; without arguments nothing. */
  lemma AppendText(args: seq<string>)
    ensures Joined(CallsOf(AppendArgs(args))) == if args == [] then "" else Spaced(args) + "\n"
  {
    if args != [] {
      AppendPrefix(args, |args|);
      assert args[..|args|] == args;
    }
  }
}
