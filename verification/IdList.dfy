/**
 parse_object_id_list of tools/nmo-inspect.c: a comma-separated list of numbers
 appended to a growable array of object ids.
 */
module IdList {
  import opened Words
  import opened Sequences
  import opened CStrings
  import opened Numerals

  const BUFFER_SIZE: nat := 64

  // What a list means: its items between commas, trimmed; empty items are skipped.

  function CommaIndex(s: CString): (k: nat)
    ensures k <= |s| && COMMA !in s[..k]
    ensures k < |s| ==> s[k] == COMMA
  {
    if s == [] || s[0] == COMMA then 0
    else
      var k := CommaIndex(s[1..]);
      assert s[..k + 1] == [s[0]] + s[1..][..k];
      k + 1
  }

  function Split(s: CString): (items: seq<CString>)
    ensures items != []
    decreases |s|
  {
    var k := CommaIndex(s);
    if k == |s| then [s] else [s[..k]] + Split(s[k + 1..])
  }

  function TrimLeft(s: CString): CString {
    if s != [] && IsSpace(s[0]) then TrimLeft(s[1..]) else s
  }

  function TrimRight(s: CString): CString {
    if s != [] && IsSpace(s[|s| - 1]) then TrimRight(s[..|s| - 1]) else s
  }

  function Trim(s: CString): CString {
    TrimRight(TrimLeft(s))
  }

  /** What fits the 64-byte buffer an item is copied to. */
  function Clip(s: CString): CString {
    if |s| >= BUFFER_SIZE then s[..BUFFER_SIZE - 1] else s
  }

  /** The ids of the items up to the first that is no number, and whether there was none such. */
  datatype Outcome = Outcome(ids: seq<Word32>, ok: bool)

  function ParseItems(items: seq<CString>): Outcome {
    if items == [] then Outcome([], true)
    else
      var t := Trim(items[0]);
      if t == [] then ParseItems(items[1..])
      else
        match ParseU32Token(Clip(t))
        case None => Outcome([], false)
        case Some(v) =>
          var rest := ParseItems(items[1..]);
          Outcome([v] + rest.ids, rest.ok)
  }

  /** object_ids, object_id_count and object_id_capacity of the filters. */
  class ObjectIds {
    var ids: array<Word32>
    var count: nat
    var capacity: nat

    ghost predicate Valid()
      reads this
    {
      count <= capacity == ids.Length
    }

    ghost function Contents(): seq<Word32>
      reads this, ids
      requires Valid()
    {
      ids[..count]
    }

    constructor ()
      ensures Valid() && fresh(ids) && Contents() == [] && capacity == 0
    {
      ids := new Word32[0];
      count, capacity := 0, 0;
    }

    /** append_object_id; the reallocation it asks for succeeds. */
    method Append(value: Word32)
      requires Valid()
      modifies this, ids
      ensures Valid() && (ids == old(ids) || fresh(ids))
      ensures Contents() == old(Contents()) + [value]
      ensures capacity == old(if count < capacity then capacity else if capacity == 0 then 4 else 2 * capacity)
    {
      if count == capacity {
        var newCapacity := if capacity == 0 then 4 else capacity * 2;
        var grown := new Word32[newCapacity];
        for i := 0 to count
          modifies grown
          invariant grown[..i] == ids[..i]
        {
          grown[i] := ids[i];
        }
        ids, capacity := grown, newCapacity;
      }
      ids[count] := value;
      count := count + 1;
    }

    /** Returns 0, or -1 at the first item that is no 32-bit number; ids before it stay appended. */
    method ParseObjectIdList(value: Option<CString>) returns (code: int)
      requires Valid()
      modifies this, ids
      ensures Valid() && (ids == old(ids) || fresh(ids))
      ensures var o := if value == None then Outcome([], true) else ParseItems(Split(value.value));
        code == (if o.ok then 0 else -1) && Contents() == old(Contents()) + o.ids
      ensures code == 0 <==> value == None || forall i :: 0 <= i < |Split(value.value)| ==> Acceptable(Split(value.value)[i])
    {
      if value == None {
        return 0;
      }
      ghost var k, from := ParseItemsIs(Split(value.value));
      hide Split, ParseItems, Pending;
      var s := value.value;
      ghost var base: seq<Word32>, added: seq<Word32> := Contents(), [];
      var ptr := 0;
      code := 0;
      PendingStart(s);
      while ptr < |s|
        invariant code == 0 && ptr <= |s|
        invariant Valid() && (ids == old(ids) || fresh(ids))
        invariant Contents() == base + added
        invariant Pending(added, s[ptr..]) == ParseItems(Split(s))
        decreases |s| - ptr
      {
        code, ptr, added := TakeItem(s, ptr, base, added);
        if code != 0 {
          return;
        }
      }
      PendingEnd(added, s[ptr..]);
    }

    /** One pass of the loop: the item at ptr, and where the next one begins. */
    method TakeItem(s: CString, ptr: nat, ghost base: seq<Word32>, ghost added: seq<Word32>)
      returns (code: int, next: nat, ghost added': seq<Word32>)
      requires Valid() && ptr < |s|
      requires Contents() == base + added
      modifies this, ids
      ensures Valid() && (ids == old(ids) || fresh(ids))
      ensures Contents() == base + added'
      ensures ptr < next <= |s|
      ensures code == 0 ==> Pending(added', s[next..]) == Pending(added, s[ptr..])
      ensures code != 0 ==> code == -1 && Outcome(added', false) == Pending(added, s[ptr..])
    {
      hide ParseU32Token, Split, ParseItems, Trim, Pending;
      code, added' := 0, added;
      var start := SkipSpaces(s, ptr);
      if start == |s| {
        next := start;
        PendingEnd(added, s[ptr..]);
        PendingEnd(added, s[next..]);
        return;
      }
      var end := start + CommaIndex(s[start..]);
      var len := TrimmedLength(s, start, end);
      next := if end < |s| then end + 1 else end;
      ghost var core := s[start..start + len];
      NextItem(s, ptr, start, end, len);
      PendingStep(added, s[ptr..], core, s[next..]);
      if len > 0 {
        if len >= BUFFER_SIZE {
          len := BUFFER_SIZE - 1;
        }
        ClipSlice(s, start, |core|, len);
        var id := ParseU32Token(s[start..start + len]);
        if id == None {
          code := -1;
          return;
        }
        Append(id.value);
        added' := added + [id.value];
        assert (base + added) + [id.value] == base + added';
      }
    }
  }

  /** The outcome of a list whose first numbers are already added. */
  ghost function Pending(added: seq<Word32>, rest: CString): Outcome {
    var o := ParseItems(Split(rest));
    Outcome(added + o.ids, o.ok)
  }

  lemma PendingStart(s: CString)
    ensures Pending([], s[0..]) == ParseItems(Split(s))
  {
    assert s[0..] == s;
  }

  lemma PendingEnd(added: seq<Word32>, s: CString)
    requires AllSpace(s)
    ensures Pending(added, s) == Outcome(added, true)
  {
    BlankItem(s);
  }

  /** One pass of the loop: core is the first item, trimmed, and rest the list after it. */
  lemma PendingStep(added: seq<Word32>, list: CString, core: CString, rest: CString)
    requires Trim(Split(list)[0]) == core
    requires ParseItems(Split(list)[1..]) == ParseItems(Split(rest))
    ensures Pending(added, list) ==
      var parsed := ParseU32Token(Clip(core));
      if core == [] then Pending(added, rest)
      else if parsed == None then Outcome(added, false)
      else Pending(added + [parsed.value], rest)
  {
    var parsed, o := ParseU32Token(Clip(core)), ParseItems(Split(rest));
    if parsed.Some? {
      assert added + ([parsed.value] + o.ids) == (added + [parsed.value]) + o.ids;
    }
  }

  lemma ClipSlice(s: CString, start: nat, len: nat, clipped: nat)
    requires start + len <= |s|
    requires clipped == if len >= BUFFER_SIZE then BUFFER_SIZE - 1 else len
    ensures s[start..start + clipped] == Clip(s[start..start + len])
  {
  }

  /** trim_start */
  method SkipSpaces(s: CString, from: nat) returns (i: nat)
    requires from <= |s|
    ensures from <= i <= |s| && forall j :: from <= j < i ==> IsSpace(s[j])
    ensures i < |s| ==> !IsSpace(s[i])
  {
    i := from;
    while i < |s| && IsSpace(s[i])
      invariant from <= i <= |s| && forall j :: from <= j < i ==> IsSpace(s[j])
    {
      i := i + 1;
    }
  }

  /** trim_end */
  method TrimmedLength(s: CString, start: nat, end: nat) returns (len: nat)
    requires start <= end <= |s|
    ensures start + len <= end && forall j :: start + len <= j < end ==> IsSpace(s[j])
    ensures len > 0 ==> !IsSpace(s[start + len - 1])
  {
    len := end - start;
    while len > 0 && IsSpace(s[start + len - 1])
      invariant start + len <= end && forall j :: start + len <= j < end ==> IsSpace(s[j])
    {
      len := len - 1;
    }
  }

  lemma {:induction false} TrimLeftGap(gap: CString, s: CString)
    requires AllSpace(gap)
    ensures TrimLeft(gap + s) == TrimLeft(s)
    decreases |gap|
  {
    if gap == [] {
      assert gap + s == s;
    } else {
      assert (gap + s)[1..] == gap[1..] + s;
      TrimLeftGap(gap[1..], s);
    }
  }

  lemma {:induction false} TrimRightGap(s: CString, gap: CString)
    requires AllSpace(gap)
    ensures TrimRight(s + gap) == TrimRight(s)
    decreases |gap|
  {
    if gap == [] {
      assert s + gap == s;
    } else {
      assert (s + gap)[..|s + gap| - 1] == s + gap[..|gap| - 1];
      TrimRightGap(s, gap[..|gap| - 1]);
    }
  }

  /** Trimming keeps what neither begins nor ends with white space. */
  lemma TrimCore(before: CString, core: CString, after: CString)
    requires AllSpace(before) && AllSpace(after)
    requires core != [] ==> !IsSpace(core[0]) && !IsSpace(core[|core| - 1])
    ensures Trim(before + core + after) == core
  {
    assert before + core + after == before + (core + after);
    TrimLeftGap(before, core + after);
    if core == [] {
      assert core + after == after + [];
      TrimLeftGap(after, []);
    } else {
      TrimRightGap(core, after);
    }
  }

  lemma {:induction false} CommaIndexIs(u: CString, v: CString)
    requires COMMA !in u && (v != [] ==> v[0] == COMMA)
    ensures CommaIndex(u + v) == |u|
    decreases |u|
  {
    if u == [] {
      assert u + v == v;
    } else {
      assert (u + v)[1..] == u[1..] + v;
      CommaIndexIs(u[1..], v);
    }
  }

  /** The first item of a list, and the list of the others; after the last item there is none. */
  lemma FirstItem(item: CString, rest: CString)
    requires COMMA !in item && (rest != [] ==> rest[0] == COMMA)
    ensures var items := Split(item + rest);
      items[0] == item && items[1..] == if rest == [] then [] else Split(rest[1..])
  {
    CommaIndexIs(item, rest);
    assert (item + rest)[..|item|] == item;
    assert rest != [] ==> (item + rest)[|item| + 1..] == rest[1..];
  }

  lemma SpaceIsNoComma(s: CString)
    requires AllSpace(s)
    ensures COMMA !in s
  {
  }

  lemma BlankItem(s: CString)
    requires AllSpace(s)
    ensures ParseItems(Split(s)) == Outcome([], true)
  {
    SpaceIsNoComma(s);
    FirstItem(s, []);
    TrimCore(s, [], []);
    assert s + [] + [] == s == s + [];
  }

  /** What one pass of the loop takes off the list: the item before + core + after. */
  lemma ParseFirst(before: CString, core: CString, after: CString, rest: CString)
    requires AllSpace(before) && AllSpace(after) && COMMA !in core
    requires core != [] ==> !IsSpace(core[0]) && !IsSpace(core[|core| - 1])
    requires rest != [] ==> rest[0] == COMMA
    ensures var items := Split(before + core + after + rest);
      Trim(items[0]) == core && ParseItems(items[1..]) == ParseItems(Split(if rest == [] then [] else rest[1..]))
  {
    SpaceIsNoComma(before);
    SpaceIsNoComma(after);
    FirstItem(before + core + after, rest);
    TrimCore(before, core, after);
    BlankItem([]);
  }

  /** The item the loop finds from ptr on is the first item of the rest of the list, trimmed. */
  lemma NextItem(s: CString, ptr: nat, start: nat, end: nat, len: nat)
    requires ptr <= start < |s| && forall j :: ptr <= j < start ==> IsSpace(s[j])
    requires !IsSpace(s[start])
    requires end == start + CommaIndex(s[start..])
    requires start + len <= end && forall j :: start + len <= j < end ==> IsSpace(s[j])
    requires len > 0 ==> !IsSpace(s[start + len - 1])
    ensures var items := Split(s[ptr..]);
      && Trim(items[0]) == s[start..start + len]
      && ParseItems(items[1..]) == ParseItems(Split(s[if end < |s| then end + 1 else end..]))
  {
    var before, core, after, rest := s[ptr..start], s[start..start + len], s[start + len..end], s[end..];
    assert s[ptr..] == before + core + after + rest;
    assert core + after == s[start..][..end - start];
    assert end < |s| ==> s[end] == s[start..][end - start] && rest[1..] == s[end + 1..];
    ParseFirst(before, core, after, rest);
  }

  // Writing a list of ids, and what parsing makes of it.

  /** An item of a written list: white space only, or a number in some notation between white space. */
  datatype Entry =
    | Blank(space: CString)
    | Number(before: CString, value: Word32, notation: Notation, after: CString)

  predicate WellWritten(entries: seq<Entry>) {
    forall i :: 0 <= i < |entries| ==>
      match entries[i]
      case Blank(space) => AllSpace(space)
      case Number(before, _, _, after) => AllSpace(before) && AllSpace(after)
  }

  function ItemText(e: Entry): CString {
    match e
    case Blank(space) => space
    case Number(before, value, notation, after) => before + Numeral(value, notation) + after
  }

  function Join(entries: seq<Entry>): CString {
    if entries == [] then []
    else if |entries| == 1 then ItemText(entries[0])
    else ItemText(entries[0]) + ([COMMA] + Join(entries[1..]))
  }

  function ValuesOf(entries: seq<Entry>): seq<Word32> {
    if entries == [] then []
    else (if entries[0].Number? then [entries[0].value] else []) + ValuesOf(entries[1..])
  }

  /** What becomes of a numeral in the buffer: 63 characters of a longer one are read. */
  function ReadAs(value: Word32, notation: Notation): Word32 {
    var token := ParseU32Token(Clip(Numeral(value, notation)));
    if token == None then 0 else token.value
  }

  /** A numeral that the buffer holds, or one that is all zeros. */
  predicate Fits(value: Word32, notation: Notation) {
    |Numeral(value, notation)| < BUFFER_SIZE || value == 0
  }

  lemma ReadAsIff(value: Word32, notation: Notation)
    ensures ParseU32Token(Clip(Numeral(value, notation))) == Some(ReadAs(value, notation))
    ensures ReadAs(value, notation) == value <==> Fits(value, notation)
  {
    hide Numeral, ParseU32Token;
    var s := Numeral(value, notation);
    if |s| < BUFFER_SIZE {
      NumeralRead(value, notation);
    } else {
      CutNumeralRead(value, notation, BUFFER_SIZE - 1);
    }
  }

  function ReadsOf(entries: seq<Entry>): seq<Word32> {
    if entries == [] then []
    else (if entries[0].Number? then [ReadAs(entries[0].value, entries[0].notation)] else []) + ReadsOf(entries[1..])
  }

  predicate AllFit(entries: seq<Entry>) {
    forall i :: 0 <= i < |entries| && entries[i].Number? ==> Fits(entries[i].value, entries[i].notation)
  }

  lemma {:induction false} ReadsAreValuesIff(entries: seq<Entry>)
    ensures |ReadsOf(entries)| == |ValuesOf(entries)|
    ensures ReadsOf(entries) == ValuesOf(entries) <==> AllFit(entries)
    decreases |entries|
  {
    hide ReadAs, Fits;
    if entries != [] {
      var e, rest := entries[0], entries[1..];
      ReadsAreValuesIff(rest);
      assert AllFit(entries) <==> (e.Number? ==> Fits(e.value, e.notation)) && AllFit(rest) by {
        assert forall i :: 0 < i < |entries| ==> entries[i] == rest[i - 1];
      }
      if e.Number? {
        ReadAsIff(e.value, e.notation);
        assert ReadsOf(entries)[0] == ReadAs(e.value, e.notation) && ReadsOf(entries)[1..] == ReadsOf(rest);
        assert ValuesOf(entries)[0] == e.value && ValuesOf(entries)[1..] == ValuesOf(rest);
      }
    }
  }

  lemma EntryRead(e: Entry)
    requires WellWritten([e])
    ensures COMMA !in ItemText(e)
    ensures match e
      case Blank(_) => Trim(ItemText(e)) == []
      case Number(_, value, notation, _) => Trim(ItemText(e)) != [] && ParseU32Token(Clip(Trim(ItemText(e)))) == Some(ReadAs(value, notation))
  {
    assert e == [e][0];
    match e
    case Blank(space) =>
      SpaceIsNoComma(space);
      TrimCore(space, [], []);
      assert space + [] + [] == space;
    case Number(before, value, notation, after) =>
      SpaceIsNoComma(before);
      SpaceIsNoComma(after);
      NumeralPlain(value, notation);
      ReadAsIff(value, notation);
      TrimCore(before, Numeral(value, notation), after);
  }

  lemma ParseFirstEntry(e: Entry, items: seq<CString>)
    requires WellWritten([e]) && items != [] && items[0] == ItemText(e)
    ensures var rest := ParseItems(items[1..]);
      ParseItems(items) == Outcome((if e.Number? then [ReadAs(e.value, e.notation)] else []) + rest.ids, rest.ok)
  {
    hide ReadAs, Trim, ParseU32Token, ItemText;
    EntryRead(e);
  }

  lemma {:induction false} ParseJoined(entries: seq<Entry>)
    requires WellWritten(entries)
    ensures ParseItems(Split(Join(entries))) == Outcome(ReadsOf(entries), true)
    decreases |entries|
  {
    hide Split, ParseItems, ItemText, ReadAs;
    if entries == [] {
      BlankItem([]);
    } else {
      var e, rest := entries[0], entries[1..];
      assert WellWritten([e]) && WellWritten(rest);
      EntryRead(e);
      if rest == [] {
        FirstItem(ItemText(e), []);
        assert ItemText(e) + [] == Join(entries);
        ParseFirstEntry(e, Split(Join(entries)));
        NoItems();
      } else {
        FirstItem(ItemText(e), [COMMA] + Join(rest));
        assert ([COMMA] + Join(rest))[1..] == Join(rest);
        ParseFirstEntry(e, Split(Join(entries)));
        ParseJoined(rest);
      }
    }
  }

  /**
   parse_object_id_list undoes printing: any list of 32-bit values, each in decimal,
   hexadecimal or octal with any white space around it, joined by commas with any
   number of empty items among them, is read back whole and in order exactly when
   each numeral is shorter than 64 characters, or all zeros.
   */
  lemma ParseInvertsJoin(entries: seq<Entry>)
    requires WellWritten(entries)
    ensures ParseItems(Split(Join(entries))) == Outcome(ValuesOf(entries), true) <==> AllFit(entries)
  {
    ParseJoined(entries);
    ReadsAreValuesIff(entries);
  }

  /** Plain numerals always fit. */
  lemma UnpaddedFits(value: Word32, notation: Notation)
    requires notation in {Decimal, Hexadecimal(0), Octal(0)}
    ensures Fits(value, notation)
  {
    hide Digits;
    match notation
    case Decimal => DigitsPlain(value, 10);
    case Hexadecimal(_) => DigitsPlain(value, 16);
    case Octal(_) => DigitsPlain(value, 8);
  }

  /** The shortest numeral that does not fit: 63 zeros and a 1 are taken for 0. */
  lemma LongNumeralMisread()
    ensures Numeral(1, Octal(62)) == Zeros(63) + Digits(1, 8) && |Numeral(1, Octal(62))| == 64
    ensures ReadAs(1, Octal(62)) == 0
  {
    hide ParseU32Token;
    CutNumeralRead(1, Octal(62), 63);
  }

  lemma NoItems()
    ensures ParseItems([]) == Outcome([], true)
  {
  }

  // What becomes of any list.

  /** The items joined by commas again. */
  function Rejoin(items: seq<CString>): CString
    requires items != []
  {
    if |items| == 1 then items[0] else items[0] + [COMMA] + Rejoin(items[1..])
  }

  /** A list is cut at each of its commas and nowhere else. */
  lemma {:induction false} SplitIs(s: CString)
    ensures Rejoin(Split(s)) == s
    ensures forall i :: 0 <= i < |Split(s)| ==> COMMA !in Split(s)[i]
    decreases |s|
  {
    var k := CommaIndex(s);
    if k < |s| {
      SplitIs(s[k + 1..]);
      assert s == s[..k] + [COMMA] + s[k + 1..];
      assert Split(s)[1..] == Split(s[k + 1..]);
    }
  }

  lemma {:induction false} TrimLeftIs(s: CString) returns (before: CString)
    ensures s == before + TrimLeft(s) && AllSpace(before)
    ensures TrimLeft(s) != [] ==> !IsSpace(TrimLeft(s)[0])
    decreases |s|
  {
    before := [];
    if s != [] && IsSpace(s[0]) {
      var rest := TrimLeftIs(s[1..]);
      before := [s[0]] + rest;
    }
  }

  lemma {:induction false} TrimRightIs(s: CString) returns (after: CString)
    ensures s == TrimRight(s) + after && AllSpace(after)
    ensures TrimRight(s) != [] ==> !IsSpace(TrimRight(s)[|TrimRight(s)| - 1])
    decreases |s|
  {
    after := [];
    if s != [] && IsSpace(s[|s| - 1]) {
      var rest := TrimRightIs(s[..|s| - 1]);
      after := rest + [s[|s| - 1]];
      assert s == (TrimRight(s) + rest) + [s[|s| - 1]];
    }
  }

  /** Trimming takes white space off both ends, all of it. */
  lemma TrimIs(s: CString) returns (before: CString, after: CString)
    ensures s == before + Trim(s) + after && AllSpace(before) && AllSpace(after)
    ensures Trim(s) != [] ==> !IsSpace(Trim(s)[0]) && !IsSpace(Trim(s)[|Trim(s)| - 1])
  {
    hide TrimLeft, TrimRight;
    before := TrimLeftIs(s);
    after := TrimRightIs(TrimLeft(s));
    assert s == before + (Trim(s) + after);
    if Trim(s) != [] {
      assert Trim(s)[0] == TrimLeft(s)[0];
    }
  }

  /** What of an item is read: trimmed, at most 63 bytes. */
  ghost predicate Accepted(item: CString, v: nat) {
    var t := Trim(item);
    IsNumeral(t[..if |t| < 64 then |t| else 63], v)
  }

  ghost predicate Acceptable(item: CString) {
    Trim(item) == [] || exists v: nat :: v < UINT32_COUNT && Accepted(item, v)
  }

  function ReadOf(item: CString): seq<Word32> {
    var t := Trim(item);
    if t == [] then []
    else
      var token := ParseU32Token(Clip(t));
      if token == None then [] else [token.value]
  }

  /** Blank, or read. */
  predicate Passed(item: CString) {
    Trim(item) == [] || ParseU32Token(Clip(Trim(item))).Some?
  }

  lemma PassedIff(item: CString)
    ensures Passed(item) <==> Acceptable(item)
    ensures |ReadOf(item)| <= 1 && (ReadOf(item) != [] ==> Trim(item) != [] && Accepted(item, ReadOf(item)[0]))
    ensures Passed(item) && Trim(item) != [] ==> ReadOf(item) != []
  {
    hide Trim, ParseU32Token, IsNumeral;
    var t := Trim(item);
    assert Clip(t) == t[..if |t| < 64 then |t| else 63];
    var token := ParseU32Token(Clip(t));
    if token.Some? {
      AcceptedIff(Clip(t), token.value);
      assert Accepted(item, token.value);
    }
    if v: nat :| v < UINT32_COUNT && Accepted(item, v) {
      AcceptedIff(Clip(t), v);
    }
  }

  lemma {:induction false} ParseUpTo(items: seq<CString>) returns (k: nat)
    ensures k <= |items| && (forall i :: 0 <= i < k ==> Passed(items[i])) && (k < |items| ==> !Passed(items[k]))
    ensures ParseItems(items) == Outcome(FlatMap(ReadOf, items[..k]), k == |items|)
    decreases |items|
  {
    hide Trim, ParseU32Token, FlatMap;
    k := 0;
    FlatMapNone(ReadOf);
    if items != [] && Passed(items[0]) {
      var rest := items[1..];
      var j := ParseUpTo(rest);
      k := j + 1;
      assert forall i :: 0 < i < |items| ==> items[i] == rest[i - 1];
      assert items[..k] == [items[0]] + rest[..j];
      FlatMapConcat(ReadOf, [items[0]], rest[..j]);
      FlatMapOne(ReadOf, items[0]);
    }
  }

  /**
   For any list: the parser stops at the first item, number k, that is neither blank
   nor a 32-bit numeral, and answers whether there was none; the ids it appended are
   the values of the items before it that are not blank, in order.
   */
  lemma ParseItemsIs(items: seq<CString>) returns (k: nat, from: seq<nat>)
    ensures k <= |items| && (forall i :: 0 <= i < k ==> Acceptable(items[i])) && (k < |items| ==> !Acceptable(items[k]))
    ensures ParseItems(items).ok <==> k == |items|
    ensures |ParseItems(items).ids| == |from|
    ensures forall j, l :: 0 <= j < l < |from| ==> from[j] < from[l]
    ensures forall j :: 0 <= j < |from| ==>
      from[j] < k && Trim(items[from[j]]) != [] && Accepted(items[from[j]], ParseItems(items).ids[j])
    ensures forall i :: 0 <= i < k && Trim(items[i]) != [] ==> i in from
  {
    hide Trim, FlatMap, Acceptable, Accepted, ReadOf, Passed;
    k := ParseUpTo(items);
    forall i | 0 <= i < |items|
      ensures Passed(items[i]) <==> Acceptable(items[i])
      ensures |ReadOf(items[i])| <= 1
      ensures ReadOf(items[i]) != [] ==> Trim(items[i]) != [] && Accepted(items[i], ReadOf(items[i])[0])
      ensures Passed(items[i]) && Trim(items[i]) != [] ==> ReadOf(items[i]) != []
    {
      PassedIff(items[i]);
    }
    var before := items[..k];
    assert forall i :: 0 <= i < k ==> before[i] == items[i];
    from := Positions(ReadOf, before);
    forall j | 0 <= j < |from|
      ensures from[j] < k && Trim(items[from[j]]) != [] && Accepted(items[from[j]], ParseItems(items).ids[j])
    {
      assert ReadOf(before[from[j]]) == [FlatMap(ReadOf, before)[j]];
    }
  }
}
