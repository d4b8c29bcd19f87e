/**
 parse_command of tools/nmo-debug.c: the in-place, quote-aware tokenizer of the
 debugger prompt. It overwrites the byte after each word with NUL and leaves
 pointers into the line, here indices, in argv.
 */
module CommandLine {
  import opened CStrings

  /** The bytes [start, end) of the line that make up one word. */
  datatype Span = Span(start: nat, end: nat)

  /** s is the C string that starts at index i of a buffer: its bytes, then the first NUL. */
  ghost predicate CStringAt(b: seq<Byte>, i: nat, s: CString) {
    && i + |s| < |b|
    && b[i + |s|] == NUL
    && b[i..i + |s|] == s
  }

  lemma CStringUnique(b: seq<Byte>, i: nat, s: CString, t: CString)
    requires CStringAt(b, i, s) && CStringAt(b, i, t)
    ensures s == t
  {
    assert forall j :: 0 <= j < |s| ==> s[j] == b[i..i + |s|][j];
    assert forall j :: 0 <= j < |t| ==> t[j] == b[i..i + |t|][j];
  }

  /**
   The words of a line from index i on. A word in progress began at start; inside
   quotes there always is one. At most room words are produced.
   */
  function Scan(s: CString, i: nat, start: Option<nat>, quoted: bool, room: int): seq<Span>
    requires i <= |s|
    requires quoted ==> start.Some?
    decreases |s| - i
  {
    if room <= 0 then []
    else if i == |s| then (if start.Some? then [Span(start.value, i)] else [])
    else if IsSpace(s[i]) && !quoted then
      if start.Some? then [Span(start.value, i)] + Scan(s, i + 1, None, false, room - 1)
      else Scan(s, i + 1, None, false, room)
    else if s[i] == QUOTE then
      if quoted then [Span(start.value, i)] + Scan(s, i + 1, None, false, room - 1)
      else Scan(s, i + 1, Some(i + 1), true, room)
    else Scan(s, i + 1, if start.Some? then start else Some(i), quoted, room)
  }

  /** Consecutive words share neither a byte nor the byte that ends them. */
  ghost predicate Apart(spans: seq<Span>, bound: nat) {
    && (forall j :: 0 <= j < |spans| ==> spans[j].start <= spans[j].end < bound)
    && (forall j, k :: 0 <= j < k < |spans| ==> spans[j].end < spans[k].start)
  }

  /** The line once the byte after each word has been overwritten. */
  ghost function Blanked(buffer: seq<Byte>, spans: seq<Span>): (r: seq<Byte>)
    ensures |r| == |buffer|
  {
    if spans == [] then buffer
    else
      var last := |spans| - 1;
      var r := Blanked(buffer, spans[..last]);
      if spans[last].end < |buffer| then r[spans[last].end := NUL] else r
  }

  lemma BlankedOneMore(buffer: seq<Byte>, spans: seq<Span>, w: Span)
    requires w.end < |buffer|
    ensures Blanked(buffer, spans + [w]) == Blanked(buffer, spans)[w.end := NUL]
  {
    assert (spans + [w])[..|spans|] == spans;
  }

  /** A byte changes, to NUL, exactly when some word ends there. */
  lemma {:induction false} BlankedAt(buffer: seq<Byte>, spans: seq<Span>, k: nat)
    requires k < |buffer|
    ensures Blanked(buffer, spans)[k] ==
      if exists j :: 0 <= j < |spans| && spans[j].end == k then NUL else buffer[k]
  {
    if spans != [] {
      var last := |spans| - 1;
      BlankedAt(buffer, spans[..last], k);
      assert forall j :: 0 <= j < last ==> spans[..last][j] == spans[j];
    }
  }

  /** The arguments point, in increasing order, at the words of the line, each by now a C string of its own. */
  ghost predicate Parsed(s: CString, buffer: seq<Byte>, args: seq<nat>, spans: seq<Span>) {
    && |spans| <= |args|
    && Apart(spans, |s| + 1)
    && forall j :: 0 <= j < |spans| ==>
      args[j] == spans[j].start && CStringAt(buffer, args[j], s[spans[j].start..spans[j].end])
  }

  lemma WordCutOut(before: seq<Byte>, s: CString, spans: seq<Span>, j: nat)
    requires CStringAt(before, 0, s)
    requires j < |spans| && Apart(spans, |s| + 1)
    ensures CStringAt(Blanked(before, spans), spans[j].start, s[spans[j].start..spans[j].end])
  {
    var buffer, w := Blanked(before, spans), spans[j];
    BlankedAt(before, spans, w.end);
    forall k | w.start <= k < w.end
      ensures buffer[k] == s[k]
    {
      BlankedAt(before, spans, k);
      assert before[..|s|][k] == s[k];
    }
  }

  lemma AllCutOut(before: seq<Byte>, s: CString, buffer: seq<Byte>, args: seq<nat>, spans: seq<Span>)
    requires CStringAt(before, 0, s) && buffer == Blanked(before, spans)
    requires |spans| <= |args| && forall j :: 0 <= j < |spans| ==> args[j] == spans[j].start
    requires Apart(spans, |s| + 1)
    ensures Parsed(s, buffer, args, spans)
  {
    forall j | 0 <= j < |spans|
      ensures CStringAt(buffer, args[j], s[spans[j].start..spans[j].end])
    {
      WordCutOut(before, s, spans, j);
    }
  }

  /** Where the tokenizer stands before byte p: the words done are cut out and recorded, one may be in progress. */
  ghost predicate Standing(before: seq<Byte>, buffer: seq<Byte>, args: seq<nat>, done: seq<Span>, p: nat, start: Option<nat>) {
    && buffer == Blanked(before, done)
    && |done| <= |args| && (forall j :: 0 <= j < |done| ==> args[j] == done[j].start)
    && Apart(done, p)
    && (start.Some? ==> start.value <= p && forall j :: 0 <= j < |done| ==> done[j].end < start.value)
  }

  lemma StandingCut(before: seq<Byte>, buffer: seq<Byte>, args: seq<nat>, done: seq<Span>, p: nat, start: nat)
    requires Standing(before, buffer, args, done, p, Some(start))
    requires p < |before| && |done| < |args|
    ensures Standing(before, buffer[p := NUL], args[|done| := start], done + [Span(start, p)], p + 1, None)
  {
    BlankedOneMore(before, done, Span(start, p));
  }

  lemma AheadIntact(before: seq<Byte>, s: CString, done: seq<Span>, p: nat)
    requires CStringAt(before, 0, s) && Apart(done, p) && p <= |s|
    ensures Blanked(before, done)[p] == if p < |s| then s[p] else NUL
  {
    BlankedAt(before, done, p);
    if p < |s| {
      assert before[..|s|][p] == s[p];
    }
  }

  /** The words already cut out, followed by those still to be found. */
  ghost function Resume(s: CString, done: seq<Span>, p: nat, start: Option<nat>, quoted: bool, maxArgs: int): seq<Span>
    requires p <= |s| && (quoted ==> start.Some?)
  {
    done + Scan(s, p, start, quoted, maxArgs - |done|)
  }

  lemma ResumeCut(s: CString, done: seq<Span>, p: nat, start: nat, quoted: bool, maxArgs: int)
    requires p < |s| && |done| < maxArgs
    requires if quoted then s[p] == QUOTE else IsSpace(s[p])
    ensures Resume(s, done, p, Some(start), quoted, maxArgs)
         == Resume(s, done + [Span(start, p)], p + 1, None, false, maxArgs)
  {
    var w := [Span(start, p)];
    assert done + (w + Scan(s, p + 1, None, false, maxArgs - |done| - 1))
        == (done + w) + Scan(s, p + 1, None, false, maxArgs - |done| - 1);
  }

  /** A byte that cuts nothing opens a quote, opens a bare word, or leaves everything as it is. */
  lemma ResumeOver(s: CString, done: seq<Span>, p: nat, start: Option<nat>, quoted: bool, maxArgs: int)
    requires p < |s| && |done| < maxArgs && (quoted ==> start.Some?)
    ensures IsSpace(s[p]) && !quoted && start.None? ==>
      Resume(s, done, p, start, quoted, maxArgs) == Resume(s, done, p + 1, None, false, maxArgs)
    ensures s[p] == QUOTE && !quoted ==>
      Resume(s, done, p, start, quoted, maxArgs) == Resume(s, done, p + 1, Some(p + 1), true, maxArgs)
    ensures (quoted || !IsSpace(s[p])) && s[p] != QUOTE ==>
      Resume(s, done, p, start, quoted, maxArgs)
      == Resume(s, done, p + 1, if start.Some? then start else Some(p), quoted, maxArgs)
  {
  }

  lemma ResumeStart(s: CString, maxArgs: int)
    ensures Resume(s, [], 0, None, false, maxArgs) == Scan(s, 0, None, false, maxArgs)
  {
  }

  lemma StandingStart(before: seq<Byte>, args: seq<nat>)
    ensures Standing(before, before, args, [], 0, None)
  {
  }

  lemma ResumeEnd(s: CString, done: seq<Span>, p: nat, start: Option<nat>, quoted: bool, maxArgs: int)
    requires p <= |s| && (quoted ==> start.Some?)
    requires p == |s| || |done| >= maxArgs
    ensures Resume(s, done, p, start, quoted, maxArgs)
         == if start.Some? && |done| < maxArgs then done + [Span(start.value, p)] else done
  {
  }

  /** The cut both branches of the tokenizer make: *p = 0, then the word's start goes to the next argument. */
  method CutWord(line: array<Byte>, argv: array<nat>, argc: nat, start: nat, p: nat, ghost before: seq<Byte>, ghost done: seq<Span>)
    requires Standing(before, line[..], argv[..], done, p, Some(start))
    requires argc == |done| < argv.Length && p < |before|
    modifies line, argv
    ensures Standing(before, line[..], argv[..], done + [Span(start, p)], p + 1, None)
  {
    ghost var buffer, args := line[..], argv[..];
    StandingCut(before, buffer, args, done, p, start);
    line[p] := NUL;
    argv[argc] := start;
    assert line[..] == buffer[p := NUL] && argv[..] == args[argc := start];
  }

  /** s is the text of the line, up to its terminator. */
  method ParseCommand(line: array<Byte>, argv: array<nat>, maxArgs: int, ghost s: CString) returns (argc: nat)
    requires CStringAt(line[..], 0, s)
    requires maxArgs <= argv.Length
    modifies line, argv
    ensures var spans := Scan(s, 0, None, false, maxArgs);
      argc == |spans| && Parsed(s, line[..], argv[..], spans) && line[..] == Blanked(old(line[..]), spans)
  {
    hide Scan, Resume, Blanked, Parsed;
    ghost var before := line[..];
    ResumeStart(s, maxArgs);
    StandingStart(before, argv[..]);
    ghost var done: seq<Span> := [];
    AheadIntact(before, s, done, 0);
    argc := 0;
    var p := 0;
    var inQuotes := false;
    var argStart: Option<nat> := None;
    while line[p] != NUL && argc < maxArgs
      invariant argc == |done| && (argc <= maxArgs || argc == 0)
      invariant p <= |s| && line[p] == (if p < |s| then s[p] else NUL)
      invariant inQuotes ==> argStart.Some?
      invariant Standing(before, line[..], argv[..], done, p, argStart)
      invariant Resume(s, done, p, argStart, inQuotes, maxArgs) == Scan(s, 0, None, false, maxArgs)
      decreases |s| - p
    {
      ResumeOver(s, done, p, argStart, inQuotes, maxArgs);
      if IsSpace(line[p]) && !inQuotes {
        if argStart.Some? {
          ResumeCut(s, done, p, argStart.value, inQuotes, maxArgs);
          CutWord(line, argv, argc, argStart.value, p, before, done);
          done := done + [Span(argStart.value, p)];
          argc, argStart := argc + 1, None;
        }
      } else if line[p] == QUOTE {
        if !inQuotes {
          inQuotes, argStart := true, Some(p + 1);
        } else {
          ResumeCut(s, done, p, argStart.value, inQuotes, maxArgs);
          CutWord(line, argv, argc, argStart.value, p, before, done);
          done := done + [Span(argStart.value, p)];
          argc, argStart, inQuotes := argc + 1, None, false;
        }
      } else if argStart.None? {
        argStart := Some(p);
      }
      p := p + 1;
      AheadIntact(before, s, done, p);
    }
    ResumeEnd(s, done, p, argStart, inQuotes, maxArgs);
    argc := FinishWords(line, argv, argc, argStart, p, maxArgs, before, s, done);
  }

  /** The word the end of the line cuts off, if any. */
  method FinishWords(line: array<Byte>, argv: array<nat>, argc: nat, argStart: Option<nat>, p: nat, maxArgs: int,
                     ghost before: seq<Byte>, ghost s: CString, ghost done: seq<Span>)
    returns (argc': nat)
    requires CStringAt(before, 0, s) && p <= |s|
    requires Standing(before, line[..], argv[..], done, p, argStart)
    requires argc == |done| && maxArgs <= argv.Length
    requires p == |s| || argc >= maxArgs
    modifies argv
    ensures var spans := if argStart.Some? && argc < maxArgs then done + [Span(argStart.value, p)] else done;
      argc' == |spans| && Parsed(s, line[..], argv[..], spans) && line[..] == Blanked(before, spans)
  {
    argc' := argc;
    ghost var spans := done;
    if argStart.Some? && argc < maxArgs {
      AheadIntact(before, s, done, p);
      BlankedOneMore(before, done, Span(argStart.value, p));
      ghost var args := argv[..];
      argv[argc'] := argStart.value;
      assert argv[..] == args[argc := argStart.value];
      spans := done + [Span(argStart.value, p)];
      argc' := argc' + 1;
    }
    AllCutOut(before, s, line[..], argv[..], spans);
  }

  // Rendering words on a line, and what the tokenizer makes of it.

  /** An opening quote drops what comes directly before it. Without a closing one the word goes to the end of the line. */
  datatype Word =
    | Bare(text: CString)
    | Quoted(dropped: CString, text: CString)
    | Unclosed(dropped: CString, text: CString)

  /** A word and the white space before it. */
  datatype Item = Item(gap: CString, word: Word)

  predicate Plain(s: CString) {
    forall i :: 0 <= i < |s| ==> !IsSpace(s[i]) && s[i] != QUOTE
  }

  predicate Writable(w: Word) {
    if w.Bare? then w.text != [] && Plain(w.text) else Plain(w.dropped) && QUOTE !in w.text
  }

  function Written(w: Word): CString {
    match w
    case Bare(text) => text
    case Quoted(dropped, text) => dropped + [QUOTE] + text + [QUOTE]
    case Unclosed(dropped, text) => dropped + [QUOTE] + text
  }

  /** White space ends a bare word; anything may follow a quoted word directly, nothing an unclosed one. */
  predicate WellSpaced(items: seq<Item>, afterBare: bool) {
    items != [] ==>
      && AllSpace(items[0].gap) && (afterBare ==> items[0].gap != [])
      && Writable(items[0].word) && (items[0].word.Unclosed? ==> |items| == 1)
      && WellSpaced(items[1..], items[0].word.Bare?)
  }

  predicate Tidy(items: seq<Item>, tail: CString) {
    AllSpace(tail) && (items != [] && items[|items| - 1].word.Unclosed? ==> tail == [])
  }

  function Render(items: seq<Item>, tail: CString): CString {
    if items == [] then tail
    else items[0].gap + Written(items[0].word) + Render(items[1..], tail)
  }

  function Texts(items: seq<Item>): (r: seq<CString>)
    ensures |r| == |items|
  {
    if items == [] then [] else [items[0].word.text] + Texts(items[1..])
  }

  ghost function TextsOf(s: CString, spans: seq<Span>): (r: seq<CString>)
    requires Inside(s, spans)
    ensures |r| == |spans|
  {
    seq(|spans|, j requires 0 <= j < |spans| => s[spans[j].start..spans[j].end])
  }

  lemma {:induction false} ScanGap(s: CString, i: nat, e: nat, room: int)
    requires i <= e <= |s| && AllSpace(s[i..e])
    ensures Scan(s, i, None, false, room) == Scan(s, e, None, false, room)
    decreases e - i
  {
    if i < e && room > 0 {
      assert s[i..e][0] == s[i];
      assert s[i..e][1..] == s[i + 1..e];
      ScanGap(s, i + 1, e, room);
    }
  }

  lemma {:induction false} ScanText(s: CString, i: nat, e: nat, start: nat, quoted: bool, room: int)
    requires i <= e <= |s| && room > 0
    requires forall k :: i <= k < e ==> s[k] != QUOTE && (quoted || !IsSpace(s[k]))
    ensures Scan(s, i, Some(start), quoted, room) == Scan(s, e, Some(start), quoted, room)
    decreases e - i
  {
    if i < e {
      ScanText(s, i + 1, e, start, quoted, room);
    }
  }

  /** Bytes that are neither white space nor quotes begin a word, or go on with it. */
  lemma ScanPlain(s: CString, i: nat, e: nat, room: int)
    requires i <= e <= |s| && room > 0
    requires forall k :: i <= k < e ==> s[k] != QUOTE && !IsSpace(s[k])
    ensures Scan(s, i, None, false, room) == Scan(s, e, if i < e then Some(i) else None, false, room)
  {
    if i < e {
      ScanText(s, i + 1, e, i, false, room);
    }
  }

  /** A quoted part from its opening quote on, up to its closing quote or the end of the line. */
  lemma ScanQuoted(s: CString, i: nat, e: nat, start: Option<nat>, room: int)
    requires i < e <= |s| && room > 0 && s[i] == QUOTE
    requires forall k :: i < k < e ==> s[k] != QUOTE
    requires e < |s| ==> s[e] == QUOTE
    ensures Scan(s, i, start, false, room) ==
      [Span(i + 1, e)] + (if e < |s| then Scan(s, e + 1, None, false, room - 1) else Scan(s, e, None, false, room - 1))
  {
    ScanText(s, i + 1, e, i + 1, true, room);
  }

  /** Where in its written form a word's text begins. */
  function TextStart(w: Word): nat {
    if w.Bare? then 0 else |w.dropped| + 1
  }

  /** One written word; white space or the end of the line follows it if it is bare, the end if it is unclosed. */
  lemma ScanWord(s: CString, i: nat, w: Word, room: int)
    requires Writable(w) && room > 0
    requires i + |Written(w)| <= |s| && s[i..i + |Written(w)|] == Written(w)
    requires var e := i + |Written(w)|; (w.Bare? && e < |s| ==> IsSpace(s[e])) && (w.Unclosed? ==> e == |s|)
    ensures var e := i + |Written(w)|;
      var start := i + TextStart(w);
      && start + |w.text| <= e && s[start..start + |w.text|] == w.text
      && Scan(s, i, None, false, room) == [Span(start, start + |w.text|)] + Scan(s, e, None, false, room - 1)
  {
    hide Scan, Written;
    var e := i + |Written(w)|;
    WordInside(s, i, w);
    if w.Bare? {
      ScanPlain(s, i, e, room);
      ScanEnds(s, e, i, room);
    } else {
      var m := i + TextStart(w);
      ScanPlain(s, i, m - 1, room);
      ScanQuoted(s, m - 1, m + |w.text|, if i < m - 1 then Some(i) else None, room);
    }
  }

  /** The written word byte by byte. */
  lemma WordInside(s: CString, i: nat, w: Word)
    requires Writable(w) && i + |Written(w)| <= |s| && s[i..i + |Written(w)|] == Written(w)
    ensures var e, m := i + |Written(w)|, i + TextStart(w);
      && m + |w.text| <= e && s[m..m + |w.text|] == w.text
      && (w.Bare? ==> m == i < e == m + |w.text| && forall k :: i <= k < e ==> s[k] != QUOTE && !IsSpace(s[k]))
      && (!w.Bare? ==>
            && i < m && s[m - 1] == QUOTE
            && (forall k :: i <= k < m - 1 ==> s[k] != QUOTE && !IsSpace(s[k]))
            && (forall k :: m - 1 < k < m + |w.text| ==> s[k] != QUOTE)
            && if w.Quoted? then m + |w.text| + 1 == e && s[e - 1] == QUOTE else m + |w.text| == e)
  {
    hide Written;
    WrittenParts(w);
    var t := Written(w);
    if w.Bare? {
      Copied(s, i, t, 0, w.text);
    } else {
      Copied(s, i, t, 0, w.dropped);
      Copied(s, i, t, |w.dropped|, [QUOTE]);
      Copied(s, i, t, |w.dropped| + 1, w.text);
      if w.Quoted? {
        Copied(s, i, t, |t| - 1, [QUOTE]);
      }
    }
  }

  lemma WrittenParts(w: Word)
    ensures var t := Written(w);
      && (w.Bare? ==> t == w.text && t[0..|w.text|] == w.text)
      && (!w.Bare? ==>
            && |t| == |w.dropped| + 1 + |w.text| + (if w.Quoted? then 1 else 0)
            && t[0..|w.dropped|] == w.dropped && t[|w.dropped|..|w.dropped| + 1] == [QUOTE]
            && t[|w.dropped| + 1..|w.dropped| + 1 + |w.text|] == w.text
            && (w.Quoted? ==> t[|t| - 1..|t| - 1 + 1] == [QUOTE]))
  {
  }

  /** A part of what is written at i lies in the line as far behind i. */
  lemma Copied(s: CString, i: nat, t: CString, from: nat, part: CString)
    requires i + |t| <= |s| && s[i..i + |t|] == t
    requires from + |part| <= |t| && t[from..from + |part|] == part
    ensures s[i + from..i + from + |part|] == part
    ensures forall k :: i + from <= k < i + from + |part| ==> s[k] == part[k - i - from]
  {
    forall k | i + from <= k < i + from + |part|
      ensures s[k] == part[k - i - from]
    {
      assert s[k] == s[i..i + |t|][k - i];
      assert t[k - i] == t[from..from + |part|][k - i - from];
    }
  }

  lemma ScanEnds(s: CString, e: nat, start: nat, room: int)
    requires e <= |s| && room > 0 && (e < |s| ==> IsSpace(s[e]))
    ensures Scan(s, e, Some(start), false, room) == [Span(start, e)] + Scan(s, e, None, false, room - 1)
  {
  }

  /** What follows a bare word on a well-spaced line is white space or nothing. */
  lemma AfterBare(items: seq<Item>, tail: CString)
    requires WellSpaced(items, true) && AllSpace(tail)
    ensures var r := Render(items, tail); r == [] || IsSpace(r[0])
  {
  }

  lemma ScanItem(s: CString, i: nat, item: Item, rest: CString, room: int) returns (span: Span, e: nat)
    requires i <= |s| && s[i..] == item.gap + Written(item.word) + rest
    requires AllSpace(item.gap) && Writable(item.word) && room > 0
    requires item.word.Bare? && rest != [] ==> IsSpace(rest[0])
    requires item.word.Unclosed? ==> rest == []
    ensures i <= e <= |s| && s[e..] == rest
    ensures span.start <= span.end <= |s| && s[span.start..span.end] == item.word.text
    ensures Scan(s, i, None, false, room) == [span] + Scan(s, e, None, false, room - 1)
  {
    hide Scan, Written;
    var w, m := item.word, i + |item.gap|;
    var start := m + TextStart(w);
    e := m + |Written(w)|;
    span := Span(start, start + |w.text|);
    assert s[i..m] == s[i..][..|item.gap|] == item.gap;
    assert s[m..e] == s[i..][|item.gap|..|item.gap| + |Written(w)|] == Written(w);
    assert s[e..] == s[i..][|item.gap| + |Written(w)|..] == rest;
    assert e < |s| ==> s[e] == s[e..][0];
    ScanGap(s, i, m, room);
    ScanWord(s, m, w, room);
  }

  ghost predicate Inside(s: CString, spans: seq<Span>) {
    forall j :: 0 <= j < |spans| ==> spans[j].start <= spans[j].end <= |s|
  }

  lemma TextsOfCons(s: CString, span: Span, spans: seq<Span>)
    requires span.start <= span.end <= |s| && Inside(s, spans)
    ensures Inside(s, [span] + spans)
    ensures TextsOf(s, [span] + spans) == [s[span.start..span.end]] + TextsOf(s, spans)
  {
  }

  /** The words for which there is room. */
  function Roomed(items: seq<Item>, room: int): seq<CString> {
    if room <= 0 || items == [] then [] else [items[0].word.text] + Roomed(items[1..], room - 1)
  }

  lemma {:induction false} RoomedIsPrefix(items: seq<Item>, room: int)
    ensures Roomed(items, room) ==
      if room <= 0 then [] else if room <= |items| then Texts(items)[..room] else Texts(items)
    decreases |items|
  {
    if room > 0 && items != [] {
      RoomedIsPrefix(items[1..], room - 1);
    }
  }

  lemma {:induction false} ScanRender(s: CString, i: nat, items: seq<Item>, tail: CString, afterBare: bool, room: int)
    requires i <= |s| && s[i..] == Render(items, tail)
    requires WellSpaced(items, afterBare) && Tidy(items, tail)
    ensures var spans := Scan(s, i, None, false, room);
      Inside(s, spans) && TextsOf(s, spans) == Roomed(items, room)
    decreases |items|
  {
    hide *;
    if items == [] || room <= 0 {
      ScanNothing(s, i, items, tail, room);
    } else {
      RenderStep(items, tail, afterBare);
      var span, e := ScanItem(s, i, items[0], Render(items[1..], tail), room);
      ScanRender(s, e, items[1..], tail, items[0].word.Bare?, room - 1);
      TextsOfCons(s, span, Scan(s, e, None, false, room - 1));
      RoomedStep(items, room);
    }
  }

  lemma ScanNothing(s: CString, i: nat, items: seq<Item>, tail: CString, room: int)
    requires i <= |s| && s[i..] == Render(items, tail) && Tidy(items, tail) && (items == [] || room <= 0)
    ensures var spans := Scan(s, i, None, false, room);
      Inside(s, spans) && TextsOf(s, spans) == Roomed(items, room)
  {
    if items == [] && room > 0 {
      assert s[i..] == s[i..|s|];
      ScanGap(s, i, |s|, room);
    }
  }

  lemma RoomedStep(items: seq<Item>, room: int)
    requires items != [] && room > 0
    ensures Roomed(items, room) == [items[0].word.text] + Roomed(items[1..], room - 1)
  {
  }

  lemma RenderStep(items: seq<Item>, tail: CString, afterBare: bool)
    requires items != [] && WellSpaced(items, afterBare) && Tidy(items, tail)
    ensures var item, rest := items[0], Render(items[1..], tail);
      && Render(items, tail) == item.gap + Written(item.word) + rest
      && AllSpace(item.gap) && Writable(item.word)
      && WellSpaced(items[1..], item.word.Bare?) && Tidy(items[1..], tail)
      && (item.word.Bare? && rest != [] ==> IsSpace(rest[0]))
      && (item.word.Unclosed? ==> rest == [])
  {
    if items[0].word.Bare? {
      AfterBare(items[1..], tail);
    }
  }

  /**
   parse_command undoes rendering: for any words, bare, quoted or cut off inside quotes,
   set apart by any white space, the words found are the first maxArgs of those written.
   */
  lemma ParseInvertsRender(items: seq<Item>, tail: CString, maxArgs: int)
    requires WellSpaced(items, false) && Tidy(items, tail)
    ensures var s := Render(items, tail);
      var spans := Scan(s, 0, None, false, maxArgs);
      && Inside(s, spans)
      && TextsOf(s, spans) ==
         if maxArgs <= 0 then [] else if maxArgs <= |items| then Texts(items)[..maxArgs] else Texts(items)
  {
    var s := Render(items, tail);
    assert s[0..] == s;
    ScanRender(s, 0, items, tail, false, maxArgs);
    RoomedIsPrefix(items, maxArgs);
  }

  /**
   What the tokenizer leaves behind: as many arguments as there are words and room,
   and the C string found in the buffer at argument j can only be word j.
   */
  lemma ArgumentsAreWords(items: seq<Item>, tail: CString, maxArgs: int, buffer: seq<Byte>, args: seq<nat>)
    requires WellSpaced(items, false) && Tidy(items, tail)
    requires Parsed(Render(items, tail), buffer, args, Scan(Render(items, tail), 0, None, false, maxArgs))
    ensures var argc := |Scan(Render(items, tail), 0, None, false, maxArgs)|;
      && argc == (if maxArgs <= 0 then 0 else if maxArgs <= |items| then maxArgs else |items|)
      && argc <= |args|
      && forall j, t :: 0 <= j < argc && CStringAt(buffer, args[j], t) ==> t == Texts(items)[j]
  {
    hide Scan, Render;
    var s := Render(items, tail);
    var spans := Scan(s, 0, None, false, maxArgs);
    ParseInvertsRender(items, tail, maxArgs);
    forall j, t | 0 <= j < |spans| && CStringAt(buffer, args[j], t)
      ensures t == Texts(items)[j]
    {
      CStringUnique(buffer, args[j], t, s[spans[j].start..spans[j].end]);
      assert TextsOf(s, spans)[j] == s[spans[j].start..spans[j].end];
    }
  }

  /** The end of the bytes from i on that are neither white space nor quotes. */
  function PlainEnd(s: CString, i: nat): (e: nat)
    requires i <= |s|
    ensures i <= e <= |s| && (e < |s| ==> IsSpace(s[e]) || s[e] == QUOTE)
    ensures forall k :: i <= k < e ==> !IsSpace(s[k]) && s[k] != QUOTE
    decreases |s| - i
  {
    if i < |s| && !IsSpace(s[i]) && s[i] != QUOTE then PlainEnd(s, i + 1) else i
  }

  function GapEnd(s: CString, i: nat): (e: nat)
    requires i <= |s|
    ensures i <= e <= |s| && (e < |s| ==> !IsSpace(s[e]))
    ensures forall k :: i <= k < e ==> IsSpace(s[k])
    decreases |s| - i
  {
    if i < |s| && IsSpace(s[i]) then GapEnd(s, i + 1) else i
  }

  function QuoteEnd(s: CString, i: nat): (e: nat)
    requires i <= |s|
    ensures i <= e <= |s| && (e < |s| ==> s[e] == QUOTE)
    ensures forall k :: i <= k < e ==> s[k] != QUOTE
    decreases |s| - i
  {
    if i < |s| && s[i] != QUOTE then QuoteEnd(s, i + 1) else i
  }

  /** The word that begins behind the white space of a line, and where it ends. */
  lemma FirstWord(s: CString, g: nat) returns (w: Word, e: nat)
    requires g < |s| && !IsSpace(s[g])
    ensures g < e <= |s| && Writable(w) && s[g..e] == Written(w)
    ensures (w.Bare? && e < |s| ==> IsSpace(s[e])) && (w.Unclosed? ==> e == |s|)
  {
    var p := PlainEnd(s, g);
    if p == |s| || IsSpace(s[p]) {
      w, e := Bare(s[g..p]), p;
    } else {
      var q := QuoteEnd(s, p + 1);
      if q == |s| {
        w, e := Unclosed(s[g..p], s[p + 1..q]), q;
        QuoteSplits(s, g, p, q);
      } else {
        w, e := Quoted(s[g..p], s[p + 1..q]), q + 1;
        QuoteSplits(s, g, p, q);
        assert s[g..e] == s[g..q] + [s[q]];
      }
    }
  }

  lemma QuoteSplits(s: CString, g: nat, p: nat, q: nat)
    requires g <= p < q <= |s|
    ensures s[g..q] == s[g..p] + [s[p]] + s[p + 1..q]
  {
  }

  /** Every line is words so written: what is proved of them is all there is to know. */
  lemma {:induction false} EveryLineRenders(s: CString, afterBare: bool) returns (items: seq<Item>, tail: CString)
    requires afterBare && s != [] ==> IsSpace(s[0])
    ensures WellSpaced(items, afterBare) && Tidy(items, tail) && Render(items, tail) == s
    decreases |s|
  {
    hide Written, Writable;
    var g := GapEnd(s, 0);
    items, tail := [], s;
    if g < |s| {
      var w, e := FirstWord(s, g);
      var rest: seq<Item>;
      rest, tail := EveryLineRenders(s[e..], w.Bare?);
      NothingFollows(rest, tail);
      items := [Item(s[..g], w)] + rest;
      assert items[1..] == rest;
      assert s == s[..g] + s[g..e] + s[e..];
    }
  }

  lemma NothingFollows(items: seq<Item>, tail: CString)
    ensures Render(items, tail) == [] && WellSpaced(items, false) ==> items == [] && tail == []
  {
  }
}
