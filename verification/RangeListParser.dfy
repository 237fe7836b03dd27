/** Reading an id list such as "[1-3,07,12]" into a range list (nl_rangelist_add_list). */
module RangeListParser {
  import opened Basics
  import opened Ranges
  import opened RangeLists

  const LONG_MAX: int := 0x7FFF_FFFF_FFFF_FFFF

  predicate IsDigit(c: char) { '0' <= c <= '9' }

  predicate AllDigits(d: string) { forall i :: 0 <= i < |d| ==> IsDigit(d[i]) }

  type Digits = d: string | AllDigits(d)

  function Value(d: Digits): (v: int)
    ensures v >= 0
  {
    if d == [] then 0 else
      assert IsDigit(d[|d| - 1]);
      Value(d[..|d| - 1]) * 10 + (d[|d| - 1] as int - '0' as int)
  }

  // ----- from characters to numbers -----

  /** A run of digits and the character that ends it. */
  datatype Lexeme = Lexeme(digits: Digits, stop: char)

  /** A C string is read up to and including its terminator. */
  function At(list: string, i: nat): char {
    if i < |list| then list[i] else '\0'
  }

  /** The numbers in the rest of the text, `run` being the digits read just before it. */
  function Lex(rest: string, run: Digits): seq<Lexeme> {
    if rest == [] then Ended(run, '\0')
    else if IsDigit(rest[0]) then Lex(rest[1..], run + [rest[0]])
    else Ended(run, rest[0]) + Lex(rest[1..], [])
  }

  function Ended(run: Digits, stop: char): seq<Lexeme> {
    if run == [] then [] else [Lexeme(run, stop)]
  }

  // ----- from numbers to intervals -----

  /** `ok` is false when the reader gave up; the intervals before that point were added all the
      same.  `padding` is the length of the longest number written with a leading zero. */
  datatype Reading = Reading(ok: bool, intervals: seq<Range>, padding: nat)

  predicate Closes(c: char) { c == '\0' || c == ',' || c == ']' }

  function Pad(padding: nat, d: string): nat {
    if d != [] && d[0] == '0' && |d| > padding then |d| else padding
  }

  function Preceded(r: Range, rest: Reading): Reading {
    Reading(rest.ok, [r] + rest.intervals, rest.padding)
  }

  function Interpret(ls: seq<Lexeme>, pending: Option<int>, padding: nat): Reading {
    if ls == [] then Reading(true, [], padding)
    else
      var v, c := Value(ls[0].digits), ls[0].stop;
      if v >= LONG_MAX || (c != '-' && !Closes(c)) then Reading(false, [], padding)
      else if c == '-' then Interpret(ls[1..], Some(v), Pad(padding, ls[0].digits))
      else Preceded(RangeSet(if pending.Some? then pending.value else v, v),
                    Interpret(ls[1..], None, Pad(padding, ls[0].digits)))
  }

  function Read(list: string): Reading {
    Interpret(Lex(if At(list, 0) == '[' then list[1..] else list, []), None, 0)
  }

  // ----- the reader -----

  /** The inner scan: to the end of the run of digits. */
  method ScanDigits(list: string, begin: nat) returns (end: nat)
    requires begin <= |list|
    ensures begin <= end <= |list| && AllDigits(list[begin..end]) && !IsDigit(At(list, end))
    ensures Lex(list[begin..], []) == Lex(list[end..], list[begin..end])
  {
    end := begin;
    while IsDigit(At(list, end))
      invariant begin <= end <= |list|
      invariant AllDigits(list[begin..end])
      invariant Lex(list[begin..], []) == Lex(list[end..], list[begin..end])
      decreases |list| - end
    {
      assert list[end..][0] == list[end] && list[end..][1..] == list[end + 1..];
      assert list[begin..end] + [list[end]] == list[begin..end + 1];
      end := end + 1;
    }
  }

  /** Past the character that ended the run. */
  lemma LexStep(list: string, end: nat, run: Digits)
    requires end <= |list| && !IsDigit(At(list, end))
    ensures Lex(list[end..], run) == Ended(run, At(list, end)) + LexAt(list, end + 1)
  {
  }

  ghost predicate IsUnion(s: seq<Range>, base: seq<Range>, added: seq<Range>) {
    forall x :: In(s, x) <==> In(base, x) || In(added, x)
  }

  lemma UnionGrows(s: seq<Range>, t: seq<Range>, base: seq<Range>, done: seq<Range>, added: seq<Range>)
    requires IsUnion(s, base, done) && IsUnion(t, s, added)
    ensures IsUnion(t, base, done + added)
  {
    forall x ensures In(done + added, x) <==> In(done, x) || In(added, x) {
      InConcat(done, added, x);
    }
  }

  /** The numbers from position `begin` on; none past the terminator. */
  function LexAt(list: string, begin: nat): seq<Lexeme> {
    if begin <= |list| then Lex(list[begin..], []) else []
  }

  /** The intervals of `r` after those already done. */
  function After(done: seq<Range>, r: Reading): Reading {
    Reading(r.ok, done + r.intervals, r.padding)
  }

  lemma AfterAfter(done: seq<Range>, added: seq<Range>, r: Reading)
    ensures After(done, After(added, r)) == After(done + added, r)
    ensures After([], r) == r
  {
  }

  /** One turn of the loop on one number: give up, remember a lower bound, or add an interval.
      `rest` is what the numbers after it will do. */
  method TakeNumber(rl: RangeList, l: Lexeme, pending: Option<int>, padding: nat, ghost more: seq<Lexeme>)
    returns (failed: bool, pending': Option<int>, padding': nat, ghost added: seq<Range>)
    requires rl.Usable()
    modifies rl
    ensures rl.Usable() && (old(rl.Valid()) ==> rl.Valid())
    ensures IsUnion(rl.ranges, old(rl.ranges), added)
    ensures failed ==> Interpret([l] + more, pending, padding) == Reading(false, added, padding)
    ensures !failed ==> Interpret([l] + more, pending, padding) == After(added, Interpret(more, pending', padding'))
  {
    assert ([l] + more)[1..] == more;
    added := [];
    failed, pending', padding' := false, None, padding;
    var value := Value(l.digits);
    if value >= LONG_MAX || (l.stop != '-' && !Closes(l.stop)) {
      failed := true;
      return;
    }
    if l.digits != [] && l.digits[0] == '0' && |l.digits| > padding {
      padding' := |l.digits|;
    }
    if l.stop == '-' {
      pending' := Some(value);
      assert [] + Interpret(more, pending', padding').intervals == Interpret(more, pending', padding').intervals;
    } else {
      var br := RangeSet(if pending.Some? then pending.value else value, value);
      rl.AddRange(br);
      added := [br];
      forall x ensures In(added, x) <==> Has(br, x) {
        assert [] + [br] == [br];
        InAppend([], br, x);
      }
    }
  }

  /** What reading from `begin` on comes to. */
  function Rest(list: string, begin: nat, pending: Option<int>, padding: nat): Reading {
    Interpret(LexAt(list, begin), pending, padding)
  }

  /** One turn of the outer loop: scan a run of digits, deal with it if there is one, and step over
      the character that ended it. */
  method OneTurn(rl: RangeList, list: string, begin: nat, pending: Option<int>, padding: nat)
    returns (failed: bool, begin': nat, pending': Option<int>, padding': nat, ghost added: seq<Range>)
    requires rl.Usable() && begin <= |list|
    modifies rl
    ensures rl.Usable() && (old(rl.Valid()) ==> rl.Valid()) && begin' > begin
    ensures IsUnion(rl.ranges, old(rl.ranges), added)
    ensures failed ==> Rest(list, begin, pending, padding) == Reading(false, added, padding)
    ensures !failed ==> Rest(list, begin, pending, padding) == After(added, Rest(list, begin', pending', padding'))
  {
    var end := ScanDigits(list, begin);
    var run: Digits := list[begin..end];
    LexStep(list, end, run);
    begin' := end + 1;
    if end > begin {
      failed, pending', padding', added :=
        TakeNumber(rl, Lexeme(run, At(list, end)), pending, padding, LexAt(list, end + 1));
    } else {
      failed, pending', padding', added := false, pending, padding, [];
      assert run == [] && [] + LexAt(list, end + 1) == LexAt(list, end + 1);
      AfterAfter([], [], Rest(list, begin', pending', padding'));
      assert forall x :: !In(added, x);
    }
  }

  /** The reader: one pass over the characters, a pending lower bound, and one addition per number
      or pair of numbers. */
  method AddList(rl: RangeList, list: string) returns (status: int)
    requires rl.Usable() && '\0' !in list
    modifies rl
    ensures rl.Usable() && (old(rl.Valid()) ==> rl.Valid())
    ensures IsUnion(rl.ranges, old(rl.ranges), Read(list).intervals)
    ensures status == if Read(list).ok then Read(list).padding else -1
  {
    var padding: nat, begin: nat := 0, 0;
    if At(list, 0) == '[' {
      begin := 1;
    }
    var pending: Option<int> := None;
    ghost var done: seq<Range> := [];
    assert list[0..] == list;
    AfterAfter([], [], Read(list));
    while begin <= |list|
      invariant rl.Usable() && (old(rl.Valid()) ==> rl.Valid())
      invariant IsUnion(rl.ranges, old(rl.ranges), done)
      invariant Read(list) == After(done, Rest(list, begin, pending, padding))
      decreases |list| + 1 - begin
    {
      ghost var before := rl.ranges;
      var failed;
      ghost var added;
      failed, begin, pending, padding, added := OneTurn(rl, list, begin, pending, padding);
      UnionGrows(before, rl.ranges, old(rl.ranges), done, added);
      if failed {
        return -1;
      }
      AfterAfter(done, added, Rest(list, begin, pending, padding));
      done := done + added;
    }
    assert done + [] == done;
    return padding;
  }

  lemma InConcat(s: seq<Range>, t: seq<Range>, x: int)
    ensures In(s + t, x) <==> In(s, x) || In(t, x)
  {
    if i :| 0 <= i < |s + t| && Has((s + t)[i], x) {
      if i < |s| { assert Has(s[i], x); } else { assert Has(t[i - |s|], x); }
    }
    if i :| 0 <= i < |s| && Has(s[i], x) { assert Has((s + t)[i], x); }
    if i :| 0 <= i < |t| && Has(t[i], x) { assert Has((s + t)[|s| + i], x); }
  }

  // ----- well-formed lists -----

  /** A number, or two numbers with a dash between. */
  datatype Item = One(text: Digits) | Span(lo: Digits, hi: Digits)

  ghost predicate Number(d: Digits) { d != [] && Value(d) < LONG_MAX }

  ghost predicate WellFormed(it: Item) {
    match it
    case One(text) => Number(text)
    case Span(lo, hi) => Number(lo) && Number(hi)
  }

  function Text(it: Item): string {
    match it
    case One(text) => text
    case Span(lo, hi) => lo + "-" + hi
  }

  /** The interval an item stands for; the bounds of a span may be given in either order. */
  function Interval(it: Item): Range {
    match it
    case One(text) => Range(Value(text), Value(text))
    case Span(lo, hi) => RangeSet(Value(lo), Value(hi))
  }

  function ItemPad(padding: nat, it: Item): nat {
    match it
    case One(text) => Pad(padding, text)
    case Span(lo, hi) => Pad(Pad(padding, lo), hi)
  }

  /** The items separated by commas and closed by `tail`, which is empty or a bracket. */
  function Rendered(items: seq<Item>, tail: string): string {
    if items == [] then tail
    else if |items| == 1 then Text(items[0]) + tail
    else Text(items[0]) + "," + Rendered(items[1..], tail)
  }

  function Intervals(items: seq<Item>): seq<Range> {
    if items == [] then [] else [Interval(items[0])] + Intervals(items[1..])
  }

  function Padding(items: seq<Item>, padding: nat): nat {
    if items == [] then padding else Padding(items[1..], ItemPad(padding, items[0]))
  }

  function ItemLexemes(it: Item, stop: char): seq<Lexeme> {
    match it
    case One(text) => [Lexeme(text, stop)]
    case Span(lo, hi) => [Lexeme(lo, '-'), Lexeme(hi, stop)]
  }

  function Stop(items: seq<Item>, tail: string): char {
    if |items| > 1 then ',' else if tail == "" then '\0' else tail[0]
  }

  function Lexemes(items: seq<Item>, tail: string): seq<Lexeme> {
    if items == [] then []
    else ItemLexemes(items[0], Stop(items, tail)) + Lexemes(items[1..], tail)
  }

  // what the numbers of a well-formed list mean

  lemma InterpretItem(it: Item, stop: char, more: seq<Lexeme>, padding: nat)
    requires WellFormed(it) && Closes(stop)
    ensures Interpret(ItemLexemes(it, stop) + more, None, padding)
            == Preceded(Interval(it), Interpret(more, None, ItemPad(padding, it)))
  {
  }

  lemma {:induction false} InterpretItems(items: seq<Item>, tail: string, padding: nat)
    requires forall i :: 0 <= i < |items| ==> WellFormed(items[i])
    requires tail == "" || tail == "]"
    ensures Interpret(Lexemes(items, tail), None, padding) == Reading(true, Intervals(items), Padding(items, padding))
    decreases |items|
  {
    if items != [] {
      InterpretItem(items[0], Stop(items, tail), Lexemes(items[1..], tail), padding);
      InterpretItems(items[1..], tail, ItemPad(padding, items[0]));
    }
  }

  // the characters of a well-formed list give back its numbers

  lemma {:induction false} LexDigits(d: Digits, t: string, run: Digits)
    ensures Lex(d + t, run) == Lex(t, run + d)
    decreases |d|
  {
    if d == [] {
      assert [] + t == t && run + [] == run;
    } else {
      var d': Digits := d[1..];
      assert (d + t)[0] == d[0] && (d + t)[1..] == d' + t;
      assert IsDigit(d[0]);
      LexDigits(d', t, run + [d[0]]);
      assert run + [d[0]] + d' == run + d;
    }
  }

  /** A number, a character that ends it, and the rest. */
  lemma LexNumber(d: Digits, stop: char, t: string)
    requires d != [] && !IsDigit(stop)
    ensures Lex(d + [stop] + t, []) == [Lexeme(d, stop)] + Lex(t, [])
  {
    assert d + [stop] + t == d + ([stop] + t);
    LexDigits(d, [stop] + t, []);
    assert [] + d == d;
    assert ([stop] + t)[1..] == t;
  }

  lemma LexItem(it: Item, stop: char, t: string)
    requires WellFormed(it) && !IsDigit(stop)
    ensures Lex(Text(it) + [stop] + t, []) == ItemLexemes(it, stop) + Lex(t, [])
  {
    match it
    case One(text) =>
      LexNumber(text, stop, t);
    case Span(lo, hi) =>
      assert Text(it) + [stop] + t == lo + ['-'] + (hi + [stop] + t);
      LexNumber(lo, '-', hi + [stop] + t);
      LexNumber(hi, stop, t);
  }

  /** The last item, with nothing after it. */
  lemma LexLast(it: Item)
    requires WellFormed(it)
    ensures Lex(Text(it), []) == ItemLexemes(it, '\0')
  {
    match it
    case One(text) =>
      LexLastNumber(text);
    case Span(lo, hi) =>
      assert Text(it) == lo + ['-'] + hi;
      LexNumber(lo, '-', hi);
      LexLastNumber(hi);
  }

  lemma LexLastNumber(d: Digits)
    requires d != []
    ensures Lex(d, []) == [Lexeme(d, '\0')]
  {
    assert d + [] == d && [] + d == d;
    LexDigits(d, [], []);
  }

  lemma {:induction false} LexRendered(items: seq<Item>, tail: string)
    requires forall i :: 0 <= i < |items| ==> WellFormed(items[i])
    requires tail == "" || tail == "]"
    ensures Lex(Rendered(items, tail), []) == Lexemes(items, tail)
    decreases |items|
  {
    if items == [] {
      assert tail == "]" ==> tail[1..] == "";
    } else if |items| == 1 {
      assert items[1..] == [];
      if tail == "" {
        assert Text(items[0]) + "" == Text(items[0]);
        LexLast(items[0]);
      } else {
        assert Text(items[0]) + "]" == Text(items[0]) + [']'] + "";
        LexItem(items[0], ']', "");
      }
    } else {
      LexItem(items[0], ',', Rendered(items[1..], tail));
      LexRendered(items[1..], tail);
    }
  }

  lemma StartsWithDigit(items: seq<Item>)
    requires items != [] && WellFormed(items[0])
    ensures Rendered(items, "") != [] && IsDigit(Rendered(items, "")[0])
  {
  }

  /** Reading back a well-formed list, with or without brackets: it succeeds, denotes exactly the
      intervals of its items in order, and reports the longest zero-led number. */
  lemma ReadWellFormed(items: seq<Item>)
    requires forall i :: 0 <= i < |items| ==> WellFormed(items[i])
    ensures Read(Rendered(items, "")) == Reading(true, Intervals(items), Padding(items, 0))
    ensures Read("[" + Rendered(items, "]")) == Reading(true, Intervals(items), Padding(items, 0))
  {
    var plain := Rendered(items, "");
    assert At(plain, 0) != '[' by {
      if items != [] { StartsWithDigit(items); }
    }
    LexRendered(items, "");
    InterpretItems(items, "", 0);
    var boxed := "[" + Rendered(items, "]");
    assert boxed[1..] == Rendered(items, "]");
    LexRendered(items, "]");
    InterpretItems(items, "]", 0);
  }

  function Numbers(it: Item): seq<Digits> {
    match it
    case One(text) => [text]
    case Span(lo, hi) => [lo, hi]
  }

  /** The number is in one of the items and written with a leading zero. */
  ghost predicate ZeroLed(items: seq<Item>, d: Digits) {
    d != [] && d[0] == '0' && exists i :: 0 <= i < |items| && d in Numbers(items[i])
  }

  /** The padding reported is the length of the longest number with a leading zero, 0 if there is none. */
  lemma {:induction false} PaddingIsLongest(items: seq<Item>, padding: nat)
    ensures Padding(items, padding) >= padding
    ensures forall d: Digits :: ZeroLed(items, d) ==> |d| <= Padding(items, padding)
    ensures || Padding(items, padding) == padding
            || exists d: Digits :: ZeroLed(items, d) && |d| == Padding(items, padding)
    decreases |items|
  {
    if items != [] {
      var p, rest := ItemPad(padding, items[0]), items[1..];
      PaddingIsLongest(rest, p);
      forall d: Digits | ZeroLed(items, d) ensures |d| <= Padding(items, padding) {
        var i :| 0 <= i < |items| && d in Numbers(items[i]);
        if i > 0 { assert d in Numbers(rest[i - 1]) && ZeroLed(rest, d); }
      }
      if d: Digits :| ZeroLed(rest, d) && |d| == Padding(rest, p) {
        var i :| 0 <= i < |rest| && d in Numbers(rest[i]);
        assert d in Numbers(items[i + 1]) && ZeroLed(items, d);
      } else if p != padding {
        ItemPadIsLongest(items[0], padding);
        var d: Digits :| d in Numbers(items[0]) && d != [] && d[0] == '0' && |d| == p;
        assert ZeroLed(items, d);
      }
    }
  }

  lemma ItemPadIsLongest(it: Item, padding: nat)
    ensures ItemPad(padding, it) == padding
            || exists d: Digits :: d in Numbers(it) && d != [] && d[0] == '0' && |d| == ItemPad(padding, it)
  {
    if ItemPad(padding, it) != padding {
      match it
      case One(text) => assert text in Numbers(it);
      case Span(lo, hi) => assert lo in Numbers(it) && hi in Numbers(it);
    }
  }

  // ----- numbers as they are written -----

  /** The decimal writing of a number. */
  function Decimal(n: nat): Digits {
    if n < 10 then [(n + '0' as int) as char] else Decimal(n / 10) + [(n % 10 + '0' as int) as char]
  }

  /** Reading the decimal writing of n gives n, with any number of zeros before it. */
  lemma {:induction false} ValueOfDecimal(n: nat, zeros: nat)
    ensures Decimal(n) != [] && Value(Decimal(n)) == n
    ensures Value(Zeros(zeros) + Decimal(n)) == n
  {
    var d := Decimal(n);
    if n < 10 {
      assert d[..0] == [] && Value(d[..0]) == 0;
    } else {
      ValueOfDecimal(n / 10, 0);
      assert d[..|d| - 1] == Decimal(n / 10);
    }
    ZerosCountNothing(zeros, d);
  }

  function Zeros(n: nat): Digits { seq(n, _ => '0') }

  lemma {:induction false} ZerosCountNothing(n: nat, d: Digits)
    ensures Value(Zeros(n) + d) == Value(d)
    decreases |d|, n
  {
    var s := Zeros(n) + d;
    if d == [] {
      if n > 0 {
        assert s[..|s| - 1] == Zeros(n - 1) + d;
        ZerosCountNothing(n - 1, d);
      } else {
        assert s == d;
      }
    } else {
      assert s[..|s| - 1] == Zeros(n) + d[..|d| - 1];
      ZerosCountNothing(n, d[..|d| - 1]);
    }
  }

  // ----- giving up -----

  /** The reader accepts a number below LONG_MAX that ends at a dash, a comma, a bracket or the end. */
  ghost predicate Acceptable(l: Lexeme) {
    Value(l.digits) < 0x7FFF_FFFF_FFFF_FFFF && (l.stop == '-' || l.stop == ',' || l.stop == ']' || l.stop == '\0')
  }

  /** For every text: it gives up if and only if some number in it is not acceptable. */
  lemma {:induction false} ReadsIffAcceptable(ls: seq<Lexeme>, pending: Option<int>, padding: nat)
    ensures Interpret(ls, pending, padding).ok <==> forall i :: 0 <= i < |ls| ==> Acceptable(ls[i])
    decreases |ls|
  {
    if ls != [] {
      var p := Pad(padding, ls[0].digits);
      ReadsIffAcceptable(ls[1..], None, p);
      ReadsIffAcceptable(ls[1..], Some(Value(ls[0].digits)), p);
      assert forall i :: 0 < i < |ls| ==> ls[i] == ls[1..][i - 1];
      assert forall i :: 0 <= i < |ls| - 1 ==> ls[1..][i] == ls[i + 1];
    }
  }

  /** Items, each followed by a comma. */
  function Listed(items: seq<Item>): string {
    if items == [] then "" else Text(items[0]) + "," + Listed(items[1..])
  }

  /** A number that is not acceptable after some good items: the reader gives up there, with the intervals
      of these items added and whatever follows ignored. */
  lemma {:induction false} GivesUpAt(items: seq<Item>, d: Digits, stop: char, rest: string, padding: nat)
    requires forall i :: 0 <= i < |items| ==> WellFormed(items[i])
    requires d != [] && !IsDigit(stop) && !Acceptable(Lexeme(d, stop))
    ensures Interpret(Lex(Listed(items) + (d + [stop] + rest), []), None, padding)
            == Reading(false, Intervals(items), Padding(items, padding))
    decreases |items|
  {
    var bad := d + [stop] + rest;
    if items == [] {
      assert Listed(items) + bad == bad;
      LexNumber(d, stop, rest);
    } else {
      var tail := Listed(items[1..]) + bad;
      assert Listed(items) + bad == Text(items[0]) + [','] + tail;
      LexItem(items[0], ',', tail);
      InterpretItem(items[0], ',', Lex(tail, []), padding);
      GivesUpAt(items[1..], d, stop, rest, ItemPad(padding, items[0]));
    }
  }

  /** Whatever the text, every id read fits a long with one to spare, so the additions of one that
      the range tests make do not overflow. */
  lemma {:induction false} ReadStaysBelowLongMax(ls: seq<Lexeme>, pending: Option<int>, padding: nat)
    requires pending.Some? ==> 0 <= pending.value < 0x7FFF_FFFF_FFFF_FFFF
    ensures forall i :: 0 <= i < |Interpret(ls, pending, padding).intervals| ==>
              && 0 <= Interpret(ls, pending, padding).intervals[i].from
              && Interpret(ls, pending, padding).intervals[i].to < 0x7FFF_FFFF_FFFF_FFFF
    decreases |ls|
  {
    if ls != [] {
      var v, p := Value(ls[0].digits), Pad(padding, ls[0].digits);
      ReadStaysBelowLongMax(ls[1..], None, p);
      if v < LONG_MAX {
        ReadStaysBelowLongMax(ls[1..], Some(v), p);
      }
    }
  }
}
