/**
  HLC timestamps as text: `<u64 time>/<hex u128 node>` (`src-tauri/src/crdt/hlc.rs`), the
  comparison the sync engine uses, and the two other orders laid over the same strings:
  SQLite's byte order and TypeScript's half-numeric one (`src/utils/hlc.ts`).
 */
module HlcText {
  import opened Wrappers

  const U64_BOUND: int := 0x1_0000_0000_0000_0000
  const U128_BOUND: int := 0x1_0000_0000_0000_0000_0000_0000_0000_0000

  type Radix = r: int | r == 10 || r == 16 witness 10

  /** What uhlc hands out: a 64-bit time and a 128-bit node id. */
  datatype Timestamp = Timestamp(time: nat, node: nat) {
    predicate Valid() { time < U64_BOUND && node < U128_BOUND }
  }

  // ---------------------------------------------------------------------------------------
  // Digits
  // ---------------------------------------------------------------------------------------

  function DigitValue(c: char): Option<nat> {
    if '0' <= c <= '9' then Some(c as int - '0' as int)
    else if 'a' <= c <= 'f' then Some(c as int - 'a' as int + 10)
    else if 'A' <= c <= 'F' then Some(c as int - 'A' as int + 10)
    else None
  }

  function DigitChar(d: nat): char
    requires d < 16
  {
    if d < 10 then ('0' as int + d) as char else ('a' as int + d - 10) as char
  }

  predicate IsDigitOf(c: char, radix: Radix) {
    DigitValue(c).Some? && DigitValue(c).value < radix
  }

  predicate AllDigits(s: string, radix: Radix) {
    forall i :: 0 <= i < |s| ==> IsDigitOf(s[i], radix)
  }

  function Number(s: string, radix: Radix): nat
    requires AllDigits(s, radix)
  {
    if s == [] then 0
    else Number(s[..|s| - 1], radix) * radix + DigitValue(s[|s| - 1]).value
  }

  /** `str::parse::<u64>` and `u128::from_str_radix`: an optional `+`, then digits, within the
      width of the type. */
  function ParseUnsigned(s: string, radix: Radix, bound: nat): Option<nat> {
    var digits := if s != [] && s[0] == '+' then s[1..] else s;
    if digits == [] || !AllDigits(digits, radix) then None
    else if Number(digits, radix) < bound then Some(Number(digits, radix))
    else None
  }

  function Digits(n: nat, radix: Radix): (s: string)
    ensures s != []
    decreases n
  {
    if n < radix then [DigitChar(n)] else Digits(n / radix, radix) + [DigitChar(n % radix)]
  }

  /** The lower-case digits that printing uses; on them character order is digit order. */
  predicate Canonical(s: string, radix: Radix) {
    forall i :: 0 <= i < |s| ==> IsDigitOf(s[i], radix) && s[i] == DigitChar(DigitValue(s[i]).value)
  }

  lemma {:induction false} DigitsNumber(n: nat, radix: Radix)
    ensures Canonical(Digits(n, radix), radix)
    ensures Number(Digits(n, radix), radix) == n
    decreases n
  {
    var s := Digits(n, radix);
    if n < radix {
      assert s[..|s| - 1] == [];
    } else {
      DigitsNumber(n / radix, radix);
      assert s[..|s| - 1] == Digits(n / radix, radix);
    }
  }

  lemma {:induction false} ParseDigits(n: nat, radix: Radix, bound: nat)
    requires n < bound
    ensures ParseUnsigned(Digits(n, radix), radix, bound) == Some(n)
  {
    DigitsNumber(n, radix);
    assert Digits(n, radix)[0] != '+';
  }

  // ---------------------------------------------------------------------------------------
  // Byte order on strings
  // ---------------------------------------------------------------------------------------

  function Lex(a: string, b: string): Ordering {
    if a == [] then (if b == [] then Equal else Less)
    else if b == [] then Greater
    else if a[0] != b[0] then (if a[0] < b[0] then Less else Greater)
    else Lex(a[1..], b[1..])
  }

  lemma {:induction false} LexEqual(a: string, b: string)
    ensures Lex(a, b) == Equal <==> a == b
  {
    if a != [] && b != [] {
      LexEqual(a[1..], b[1..]);
      assert a[0] == b[0] && a[1..] == b[1..] ==> a == [a[0]] + a[1..] == b;
    }
  }

  /** Strings with equally long heads are ordered by the heads first, then by the tails. */
  lemma {:induction false} LexConcat(a: string, b: string, x: string, y: string)
    requires |a| == |b|
    ensures Lex(a + x, b + y) == if a == b then Lex(x, y) else Lex(a, b)
  {
    if a == [] {
      assert a + x == x && b + y == y;
    } else {
      assert (a + x)[1..] == a[1..] + x && (b + y)[1..] == b[1..] + y;
      LexConcat(a[1..], b[1..], x, y);
      assert a[0] == b[0] && a[1..] == b[1..] ==> a == [a[0]] + a[1..] == b;
    }
  }

  lemma {:induction false} LastDigitOrder(x: nat, y: nat, d: nat, e: nat, radix: Radix)
    requires d < radix && e < radix
    ensures CompareInt(x * radix + d, y * radix + e) == if x != y then CompareInt(x, y) else CompareInt(d, e)
  {
    if radix == 10 {
    } else {
      assert radix == 16;
    }
  }

  lemma {:induction false} CharOrder(c: char, d: char, radix: Radix)
    requires IsDigitOf(c, radix) && c == DigitChar(DigitValue(c).value)
    requires IsDigitOf(d, radix) && d == DigitChar(DigitValue(d).value)
    ensures Lex([c], [d]) == CompareInt(DigitValue(c).value, DigitValue(d).value)
  {
  }

  lemma {:induction false} LexSnoc(a: string, b: string)
    requires |a| == |b| > 0
    ensures var n := |a| - 1;
            Lex(a, b) == if a[..n] == b[..n] then Lex([a[n]], [b[n]]) else Lex(a[..n], b[..n])
  {
    var n := |a| - 1;
    assert a == a[..n] + [a[n]] && b == b[..n] + [b[n]];
    LexConcat(a[..n], b[..n], [a[n]], [b[n]]);
  }

  /** On equally wide digit strings byte order is numeric order. */
  lemma {:induction false} LexIsNumeric(a: string, b: string, radix: Radix)
    requires |a| == |b| && Canonical(a, radix) && Canonical(b, radix)
    ensures Lex(a, b) == CompareInt(Number(a, radix), Number(b, radix))
  {
    if a != [] {
      var n := |a| - 1;
      LexIsNumeric(a[..n], b[..n], radix);
      LexSnoc(a, b);
      LexEqual(a[..n], b[..n]);
      LastDigitOrder(Number(a[..n], radix), Number(b[..n], radix),
                     DigitValue(a[n]).value, DigitValue(b[n]).value, radix);
      CharOrder(a[n], b[n], radix);
      hide Lex;
    }
  }

  // ---------------------------------------------------------------------------------------
  // compare_hlc_strings
  // ---------------------------------------------------------------------------------------

  /** `split_once`: the text before and after the first `/`. */
  function SplitOnce(s: string): Option<(string, string)> {
    if s == [] then None
    else if s[0] == '/' then Some(("", s[1..]))
    else match SplitOnce(s[1..])
      case None => None
      case Some((head, tail)) => Some(([s[0]] + head, tail))
  }

  lemma {:induction false} SplitConcat(head: string, tail: string)
    requires '/' !in head
    ensures SplitOnce(head + "/" + tail) == Some((head, tail))
  {
    var s := head + "/" + tail;
    if head == [] {
      assert s == ['/'] + tail;
    } else {
      assert s[1..] == head[1..] + "/" + tail;
      SplitConcat(head[1..], tail);
      assert [s[0]] + head[1..] == head;
    }
  }

  function OrZero(n: Option<nat>): nat {
    match n case None => 0 case Some(v) => v
  }

  function ParseNodeHex(nodeHex: string): Option<nat> {
    ParseUnsigned(nodeHex, 16, U128_BOUND)
  }

  /** The inner `parse`: whatever does not parse counts as zero. */
  function ParseLenient(s: string): (r: Timestamp)
    ensures r.Valid()
  {
    var (time, node) := match SplitOnce(s)
      case None => (s, "")
      case Some(parts) => parts;
    Timestamp(OrZero(ParseUnsigned(time, 10, U64_BOUND)), if node == [] then 0 else OrZero(ParseNodeHex(node)))
  }

  function CompareTimestamps(a: Timestamp, b: Timestamp): Ordering {
    if a.time != b.time then CompareInt(a.time, b.time) else CompareInt(a.node, b.node)
  }

  function CompareHlc(a: string, b: string): Ordering {
    CompareTimestamps(ParseLenient(a), ParseLenient(b))
  }

  /** The position of a string in the order, as one number. */
  function Rank(s: string): nat {
    ParseLenient(s).time * U128_BOUND + ParseLenient(s).node
  }

  /** `hlc_is_newer`; by `CompareIsRank` this is "compares Greater". */
  predicate Newer(a: string, b: string) {
    Rank(a) > Rank(b)
  }

  /** The comparison is a total preorder on all strings, malformed ones included: it is the
      order of their ranks. */
  lemma {:induction false} CompareIsRank(a: string, b: string)
    ensures CompareHlc(a, b) == CompareInt(Rank(a), Rank(b))
    ensures Newer(a, b) <==> CompareHlc(a, b) == Greater
    ensures CompareHlc(b, a) == Flip(CompareHlc(a, b))
  {
    var (x, y) := (ParseLenient(a), ParseLenient(b));
    if x.time < y.time {
      assert x.time * U128_BOUND + x.node < y.time * U128_BOUND;
    } else if y.time < x.time {
      assert y.time * U128_BOUND + y.node < x.time * U128_BOUND;
    }
  }

  /** A part of a timestamp that is read: a number below `bound`, in either case, with leading zeros
      and one leading `+` allowed. */
  predicate Reads(part: string, radix: Radix, bound: nat, n: nat) {
    var digits := if part != [] && part[0] == '+' then part[1..] else part;
    digits != [] && AllDigits(digits, radix) && Number(digits, radix) == n && n < bound
  }

  /** Malformed strings have a place too: a time or node that cannot be read counts as zero, and so
      does the node of a string without a slash. */
  lemma {:induction false} MalformedCountsAsZero(time: string, node: string)
    requires '/' !in time
    ensures var t := ParseLenient(time + "/" + node);
            && (forall n: nat :: Reads(time, 10, U64_BOUND, n) ==> t.time == n)
            && ((forall n: nat :: !Reads(time, 10, U64_BOUND, n)) ==> t.time == 0)
            && (forall n: nat :: Reads(node, 16, U128_BOUND, n) ==> t.node == n)
            && ((forall n: nat :: !Reads(node, 16, U128_BOUND, n)) ==> t.node == 0)
    ensures ParseLenient(time).time == ParseLenient(time + "/" + node).time && ParseLenient(time).node == 0
  {
    SplitConcat(time, node);
    NoSlash(time);
    UnreadIsZero(time, 10, U64_BOUND);
    UnreadIsZero(node, 16, U128_BOUND);
  }

  lemma {:induction false} NoSlash(s: string)
    requires '/' !in s
    ensures SplitOnce(s) == None
  {
    if s != [] {
      NoSlash(s[1..]);
    }
  }

  lemma {:induction false} UnreadIsZero(part: string, radix: Radix, bound: nat)
    ensures forall n: nat :: Reads(part, radix, bound, n) ==> ParseUnsigned(part, radix, bound) == Some(n)
    ensures (forall n: nat :: !Reads(part, radix, bound, n)) ==> ParseUnsigned(part, radix, bound) == None
  {
    var digits := if part != [] && part[0] == '+' then part[1..] else part;
    if digits != [] && AllDigits(digits, radix) && Number(digits, radix) < bound {
      assert Reads(part, radix, bound, Number(digits, radix));
    }
  }

  /** Upper-case digits read as lower-case ones. */
  lemma {:induction false} DigitsOfEitherCase(d: nat)
    requires d < 16
    ensures DigitValue(DigitChar(d)) == Some(d)
    ensures d >= 10 ==> DigitValue(('A' as int + d - 10) as char) == Some(d)
  {
  }

  lemma {:induction false} EmptyIsOldest()
    ensures Rank("") == 0
  {
    assert SplitOnce("") == None;
  }

  function Print(t: Timestamp): string {
    Digits(t.time, 10) + "/" + Digits(t.node, 16)
  }

  lemma {:induction false} SplitPrint(t: Timestamp)
    ensures SplitOnce(Print(t)) == Some((Digits(t.time, 10), Digits(t.node, 16)))
  {
    DigitsNumber(t.time, 10);
    assert forall i :: 0 <= i < |Digits(t.time, 10)| ==> IsDigitOf(Digits(t.time, 10)[i], 10);
    SplitConcat(Digits(t.time, 10), Digits(t.node, 16));
  }

  lemma {:induction false} ParsePrint(t: Timestamp)
    requires t.Valid()
    ensures ParseLenient(Print(t)) == t
    ensures Rank(Print(t)) == t.time * U128_BOUND + t.node
  {
    SplitPrint(t);
    ParseDigits(t.time, 10, U64_BOUND);
    ParseDigits(t.node, 16, U128_BOUND);
  }

  /** Printing is an order isomorphism from (u64, u128) pairs to strings. */
  lemma {:induction false} OrderIsomorphism(t: Timestamp, u: Timestamp)
    requires t.Valid() && u.Valid()
    ensures CompareHlc(Print(t), Print(u)) == CompareTimestamps(t, u)
    ensures CompareHlc(Print(t), Print(u)) == Equal <==> Print(t) == Print(u)
    ensures Print(t) == Print(u) <==> t == u
  {
    ParsePrint(t);
    ParsePrint(u);
  }

  // ---------------------------------------------------------------------------------------
  // hlc_max and hlc_min
  // ---------------------------------------------------------------------------------------

  /** `Iterator::max_by`: the last of the greatest elements. */
  method HlcMax(hs: seq<string>) returns (r: Option<string>)
    ensures r.None? <==> hs == []
    ensures r.Some? ==> forall h :: h in hs ==> !Newer(h, r.value)
    ensures r.Some? ==> exists k :: 0 <= k < |hs| && hs[k] == r.value && forall j :: k < j < |hs| ==> Newer(r.value, hs[j])
  {
    hide Rank;
    r := None;
    ghost var k := 0;
    for i := 0 to |hs|
      invariant r.None? <==> i == 0
      invariant r.Some? ==> 0 <= k < i && hs[k] == r.value && forall j :: k < j < i ==> Newer(r.value, hs[j])
      invariant r.Some? ==> forall h :: h in hs[..i] ==> !Newer(h, r.value)
    {
      if r.None? || !Newer(r.value, hs[i]) {
        r, k := Some(hs[i]), i;
      }
      assert hs[..i + 1] == hs[..i] + [hs[i]];
    }
    assert hs[..|hs|] == hs;
  }

  /** `Iterator::min_by`: the first of the least elements. */
  method HlcMin(hs: seq<string>) returns (r: Option<string>)
    ensures r.None? <==> hs == []
    ensures r.Some? ==> forall h :: h in hs ==> !Newer(r.value, h)
    ensures r.Some? ==> exists k :: 0 <= k < |hs| && hs[k] == r.value && forall j :: 0 <= j < k ==> Newer(hs[j], r.value)
  {
    hide Rank;
    r := None;
    ghost var k := 0;
    for i := 0 to |hs|
      invariant r.None? <==> i == 0
      invariant r.Some? ==> 0 <= k < i && hs[k] == r.value && forall j :: 0 <= j < k ==> Newer(hs[j], r.value)
      invariant r.Some? ==> forall h :: h in hs[..i] ==> !Newer(r.value, h)
    {
      assert forall j :: 0 <= j < i ==> hs[j] in hs[..i];
      if r.None? || Newer(r.value, hs[i]) {
        r, k := Some(hs[i]), i;
      }
      assert hs[..i + 1] == hs[..i] + [hs[i]];
    }
    assert hs[..|hs|] == hs;
  }

  // ---------------------------------------------------------------------------------------
  // The order SQLite sees, and the order TypeScript sees
  // ---------------------------------------------------------------------------------------

  /** Time and node parts as printed, each with a fixed number of characters. */
  ghost predicate FixedWidth(h: string, timeWidth: nat, nodeWidth: nat) {
    exists t: Timestamp ::
      t.Valid() && h == Print(t) && |Digits(t.time, 10)| == timeWidth && |Digits(t.node, 16)| == nodeWidth
  }

  /** On equally wide timestamps SQLite's byte order is the numeric order. */
  lemma {:induction false} LexIsCompare(a: string, b: string, timeWidth: nat, nodeWidth: nat)
    requires FixedWidth(a, timeWidth, nodeWidth) && FixedWidth(b, timeWidth, nodeWidth)
    ensures Lex(a, b) == CompareHlc(a, b)
  {
    var t: Timestamp :|
      t.Valid() && a == Print(t) && |Digits(t.time, 10)| == timeWidth && |Digits(t.node, 16)| == nodeWidth;
    var u: Timestamp :|
      u.Valid() && b == Print(u) && |Digits(u.time, 10)| == timeWidth && |Digits(u.node, 16)| == nodeWidth;
    OrderIsomorphism(t, u);
    LexPrint(t, u);
    DigitsOrder(t.time, u.time, 10);
    DigitsOrder(t.node, u.node, 16);
  }

  lemma {:induction false} LexPrint(t: Timestamp, u: Timestamp)
    requires |Digits(t.time, 10)| == |Digits(u.time, 10)|
    ensures Lex(Print(t), Print(u)) ==
            if t.time == u.time then Lex(Digits(t.node, 16), Digits(u.node, 16))
            else Lex(Digits(t.time, 10), Digits(u.time, 10))
  {
    var (td, ud) := (Digits(t.time, 10), Digits(u.time, 10));
    DigitsNumber(t.time, 10);
    DigitsNumber(u.time, 10);
    assert Print(t) == td + ("/" + Digits(t.node, 16)) && Print(u) == ud + ("/" + Digits(u.node, 16));
    LexConcat(td, ud, "/" + Digits(t.node, 16), "/" + Digits(u.node, 16));
    LexConcat("/", "/", Digits(t.node, 16), Digits(u.node, 16));
  }

  lemma {:induction false} DigitsOrder(m: nat, n: nat, radix: Radix)
    requires |Digits(m, radix)| == |Digits(n, radix)|
    ensures Lex(Digits(m, radix), Digits(n, radix)) == CompareInt(m, n)
  {
    DigitsNumber(m, radix);
    DigitsNumber(n, radix);
    LexIsNumeric(Digits(m, radix), Digits(n, radix), radix);
  }

  /** Widths matter: the newer of these two is the smaller one for SQLite. */
  lemma {:induction false} LexDisagreesAcrossWidths()
    ensures Newer(Print(Timestamp(100, 1)), Print(Timestamp(99, 1)))
    ensures Lex(Print(Timestamp(100, 1)), Print(Timestamp(99, 1))) == Less
  {
    OrderIsomorphism(Timestamp(100, 1), Timestamp(99, 1));
    CompareIsRank(Print(Timestamp(100, 1)), Print(Timestamp(99, 1)));
    assert Digits(100, 10) == Digits(10, 10) + ['0'] == Digits(1, 10) + ['0'] + ['0'] == "100";
    assert Digits(99, 10) == Digits(9, 10) + ['9'] == "99";
    assert Print(Timestamp(100, 1))[0] == '1' && Print(Timestamp(99, 1))[0] == '9';
  }

  /** `compareHlc`: BigInt times, then node suffixes as plain strings. `None` where `BigInt`
      throws. BigInt accepts signs, other radices and white space; only plain digit strings
      (and the empty one) are modelled. */
  function CompareHlcTs(a: string, b: string): Option<Ordering> {
    match (ParseTs(a), ParseTs(b))
    case (Some((at, an)), Some((bt, bn))) =>
      Some(if at != bt then (if at > bt then Greater else Less) else Lex(an, bn))
    case _ => None
  }

  function ParseTs(s: string): Option<(nat, string)> {
    var (time, node) := match SplitOnce(s)
      case None => (s, "")
      case Some(parts) => parts;
    if AllDigits(time, 10) then Some((Number(time, 10), node)) else None
  }

  /** TypeScript on any two strings with plain digits before the slash: by time, then by the text after
      it; a string without a slash counts as one with nothing after it. */
  lemma {:induction false} TsOrderExactly(time: string, node: string, other: string, otherNode: string)
    requires '/' !in time && '/' !in other
    ensures CompareHlcTs(time + "/" + node, other + "/" + otherNode) ==
            if !AllDigits(time, 10) || !AllDigits(other, 10) then None
            else if Number(time, 10) == Number(other, 10) then Some(Lex(node, otherNode))
            else Some(CompareInt(Number(time, 10), Number(other, 10)))
    ensures forall s :: CompareHlcTs(time, s) == CompareHlcTs(time + "/" + "", s)
                        && CompareHlcTs(s, time) == CompareHlcTs(s, time + "/" + "")
  {
    hide Lex, Number;
    SplitConcat(time, node);
    SplitConcat(time, "");
    SplitConcat(other, otherNode);
    NoSlash(time);
  }

  lemma {:induction false} LexShorter(a: string, b: string)
    requires |a| < |b|
    ensures Lex(a, b) == if Lex(a, b[..|a|]) == Greater then Greater else Less
  {
    if a != [] {
      LexShorter(a[1..], b[1..]);
      assert b[1..][..|a[1..]|] == b[..|a|][1..];
    }
  }

  /** A printed number is wider exactly when it is bigger by enough: fewer digits, smaller. */
  lemma {:induction false} WiderIsBigger(m: nat, n: nat, radix: Radix)
    requires |Digits(m, radix)| < |Digits(n, radix)|
    ensures m < n
    decreases n
  {
    if m >= radix {
      WiderIsBigger(m / radix, n / radix, radix);
      assert if radix == 10 then m / 10 < n / 10 else m / 16 < n / 16;
    }
  }

  /** The leading digits of `n`, as many as `m` has. */
  function LeadingDigits(m: nat, n: nat, radix: Radix): nat
    requires |Digits(m, radix)| <= |Digits(n, radix)|
  {
    DigitsNumber(n, radix);
    Number(Digits(n, radix)[..|Digits(m, radix)|], radix)
  }

  /** Two printed numbers come out in numeric order as text: they are equally wide, or the
      narrower one does not exceed the leading digits of the wider. */
  predicate WidthsAlike(m: nat, n: nat, radix: Radix) {
    var (a, b) := (|Digits(m, radix)|, |Digits(n, radix)|);
    a == b || (a < b && m <= LeadingDigits(m, n, radix)) || (b < a && n <= LeadingDigits(n, m, radix))
  }

  lemma {:induction false} LexNarrow(m: nat, n: nat, radix: Radix)
    requires |Digits(m, radix)| < |Digits(n, radix)|
    ensures m < n
    ensures Lex(Digits(m, radix), Digits(n, radix)[..|Digits(m, radix)|]) == CompareInt(m, LeadingDigits(m, n, radix))
    ensures Lex(Digits(m, radix), Digits(n, radix)) == Less <==> m <= LeadingDigits(m, n, radix)
    ensures Lex(Digits(n, radix), Digits(m, radix)) == Greater <==> m <= LeadingDigits(m, n, radix)
  {
    var (a, b) := (Digits(m, radix), Digits(n, radix));
    WiderIsBigger(m, n, radix);
    DigitsNumber(m, radix);
    DigitsNumber(n, radix);
    LexShorter(a, b);
    LexIsNumeric(a, b[..|a|], radix);
    LexFlip(a, b);
  }

  lemma {:induction false} LexFlip(a: string, b: string)
    ensures Lex(b, a) == Flip(Lex(a, b))
  {
    if a != [] && b != [] {
      LexFlip(a[1..], b[1..]);
    }
  }

  lemma {:induction false} CompareTsPrint(t: Timestamp, u: Timestamp)
    ensures CompareHlcTs(Print(t), Print(u)) ==
            Some(if t.time != u.time then CompareInt(t.time, u.time)
                 else Lex(Digits(t.node, 16), Digits(u.node, 16)))
  {
    SplitPrint(t);
    SplitPrint(u);
    DigitsNumber(t.time, 10);
    DigitsNumber(u.time, 10);
    assert ParseTs(Print(t)) == Some((t.time, Digits(t.node, 16)));
    assert ParseTs(Print(u)) == Some((u.time, Digits(u.node, 16)));
  }

  lemma {:induction false} LexWidthsAlike(m: nat, n: nat, radix: Radix)
    ensures Lex(Digits(m, radix), Digits(n, radix)) == CompareInt(m, n) <==> WidthsAlike(m, n, radix)
  {
    var (a, b) := (|Digits(m, radix)|, |Digits(n, radix)|);
    if a == b {
      DigitsOrder(m, n, radix);
    } else if a < b {
      LexNarrow(m, n, radix);
    } else {
      LexNarrow(n, m, radix);
    }
  }

  /** TypeScript and Rust order printed timestamps the same way exactly when the times differ
      or the node suffixes compare alike. */
  lemma {:induction false} CrossLanguageOrder(t: Timestamp, u: Timestamp)
    requires t.Valid() && u.Valid()
    ensures CompareHlcTs(Print(t), Print(u)) == Some(CompareHlc(Print(t), Print(u)))
            <==> t.time != u.time || WidthsAlike(t.node, u.node, 16)
  {
    OrderIsomorphism(t, u);
    CompareTsPrint(t, u);
    LexWidthsAlike(t.node, u.node, 16);
  }

  /** Node ids of different widths can come out in opposite orders. */
  lemma {:induction false} CrossLanguageDisagreement()
    ensures CompareHlc(Print(Timestamp(5, 9)), Print(Timestamp(5, 16))) == Less
    ensures CompareHlcTs(Print(Timestamp(5, 9)), Print(Timestamp(5, 16))) == Some(Greater)
  {
    var (t, u) := (Timestamp(5, 9), Timestamp(5, 16));
    OrderIsomorphism(t, u);
    CompareTsPrint(t, u);
    assert Digits(16, 16) == Digits(1, 16) + ['0'] == "10";
    assert Digits(9, 16) == "9";
  }

  /** When SQLite's text order of two printed timestamps is their numeric order: the parts that
      decide, the times or on equal times the nodes, come out alike as text. */
  predicate TextOrderAgrees(t: Timestamp, u: Timestamp) {
    if t.time == u.time then WidthsAlike(t.node, u.node, 16) else WidthsAlike(t.time, u.time, 10)
  }

  /** A narrower time is followed by `/`, which sorts before every digit. */
  lemma {:induction false} LexPrintNarrow(t: Timestamp, u: Timestamp)
    requires |Digits(t.time, 10)| < |Digits(u.time, 10)|
    ensures t.time < u.time
    ensures Lex(Print(t), Print(u)) == (if t.time <= LeadingDigits(t.time, u.time, 10) then Less else Greater)
    ensures Lex(Print(u), Print(t)) == Flip(Lex(Print(t), Print(u)))
  {
    var (a, b) := (Digits(t.time, 10), Digits(u.time, 10));
    var rest := b[|a|..] + "/" + Digits(u.node, 16);
    LexNarrow(t.time, u.time, 10);
    LexFlip(Print(t), Print(u));
    assert Print(t) == a + ("/" + Digits(t.node, 16)) && Print(u) == b[..|a|] + rest;
    LexConcat(a, b[..|a|], "/" + Digits(t.node, 16), rest);
    LexEqual(a, b[..|a|]);
    DigitsNumber(u.time, 10);
    assert IsDigitOf(b[|a|], 10) && rest[0] == b[|a|];
  }

  /** SQLite orders two printed timestamps as Rust does exactly when the deciding parts come out
      alike as text. */
  lemma {:induction false} TextOrderIsNumeric(t: Timestamp, u: Timestamp)
    requires t.Valid() && u.Valid()
    ensures Lex(Print(t), Print(u)) == CompareHlc(Print(t), Print(u)) <==> TextOrderAgrees(t, u)
    ensures Lex(Print(t), Print(u)) == Greater <==> (CompareTimestamps(t, u) == Greater <==> TextOrderAgrees(t, u))
  {
    OrderIsomorphism(t, u);
    LexEqual(Print(t), Print(u));
    var (a, b) := (|Digits(t.time, 10)|, |Digits(u.time, 10)|);
    if a == b {
      LexPrint(t, u);
      LexWidthsAlike(t.node, u.node, 16);
      DigitsOrder(t.time, u.time, 10);
    } else if a < b {
      LexPrintNarrow(t, u);
    } else {
      LexPrintNarrow(u, t);
    }
  }

  // ---------------------------------------------------------------------------------------
  // Origin: whose timestamp is it
  // ---------------------------------------------------------------------------------------

  predicate IsFromNode(hlc: string, node: nat) {
    match SplitOnce(hlc)
    case None => false
    case Some((_, suffix)) => ParseNodeHex(suffix) == Some(node)
  }

  /** On every string: a timestamp comes from `n` exactly if the text after its first slash reads as
      that number, and from nobody without a slash. */
  lemma {:induction false} OriginOfAnyText(time: string, node: string, n: nat)
    requires '/' !in time
    ensures IsFromNode(time + "/" + node, n) <==> Reads(node, 16, U128_BOUND, n)
    ensures !IsFromNode(time, n)
  {
    SplitConcat(time, node);
    NoSlash(time);
  }

  type Byte = b: int | 0 <= b < 256

  /** `u128::from_le_bytes` of the UUID's bytes. */
  function LittleEndian(bytes: seq<Byte>): nat {
    if bytes == [] then 0 else bytes[0] + 256 * LittleEndian(bytes[1..])
  }

  lemma {:induction false} LittleEndianInjective(a: seq<Byte>, b: seq<Byte>)
    requires |a| == |b|
    ensures LittleEndian(a) == LittleEndian(b) <==> a == b
  {
    if a != [] {
      LittleEndianInjective(a[1..], b[1..]);
      assert a[0] == b[0] && a[1..] == b[1..] ==> a == [a[0]] + a[1..] == b;
    }
  }

  function Pow256(n: nat): nat {
    if n == 0 then 1 else 256 * Pow256(n - 1)
  }

  lemma {:induction false} LittleEndianBound(bytes: seq<Byte>)
    ensures LittleEndian(bytes) < Pow256(|bytes|)
  {
    if bytes != [] {
      LittleEndianBound(bytes[1..]);
    }
  }

  lemma {:induction false} Pow256Of16()
    ensures Pow256(16) == U128_BOUND
  {
    assert Pow256(4) == 0x1_0000_0000;
    assert Pow256(8) == 256 * (256 * (256 * (256 * Pow256(4))));
    assert Pow256(12) == 256 * (256 * (256 * (256 * Pow256(8))));
    assert Pow256(16) == 256 * (256 * (256 * (256 * Pow256(12))));
  }

  lemma {:induction false} DivideTwice(n: nat, p: nat)
    requires p > 0
    ensures n / (256 * p) == n / 256 / p
  {
    var q, r := n / 256 / p, n / 256 % p;
    assert n / 256 == q * p + r;
    assert n == 256 * (q * p + r) + n % 256;
    assert n == q * (256 * p) + (256 * r + n % 256);
    assert 256 * r + n % 256 < 256 * p;
    QuotientIsUnique(n, 256 * p, q, 256 * r + n % 256);
  }

  lemma {:induction false} QuotientIsUnique(n: nat, d: nat, q: nat, r: nat)
    requires d > 0 && n == q * d + r && r < d
    ensures n / d == q
  {
    var q', r' := n / d, n % d;
    assert n == q' * d + r';
    Monotone(q' + 1, q, d);
    Monotone(q + 1, q', d);
  }

  lemma {:induction false} Monotone(a: nat, b: nat, d: nat)
    ensures a <= b ==> a * d <= b * d
  {
  }

  lemma {:induction false} Pow256Positive(n: nat)
    ensures Pow256(n) > 0
  {
    if n > 0 {
      Pow256Positive(n - 1);
    }
  }

  /** Byte `i` of a number, the least significant one first. */
  function ByteAt(n: nat, i: nat): nat {
    Pow256Positive(i);
    n / Pow256(i) % 256
  }

  lemma {:induction false} ByteAtNext(n: nat, i: nat)
    ensures ByteAt(n, i + 1) == ByteAt(n / 256, i)
    ensures ByteAt(n, 0) == n % 256
  {
    Pow256Positive(i);
    DivideTwice(n, Pow256(i));
  }

  /** The number whose bytes these are, byte 0 the least significant, is the only one of its size. */
  lemma {:induction false} LittleEndianBytes(bytes: seq<Byte>, n: nat)
    requires n < Pow256(|bytes|)
    ensures n == LittleEndian(bytes) <==> forall i :: 0 <= i < |bytes| ==> ByteAt(n, i) == bytes[i]
  {
    hide ByteAt;
    if bytes != [] {
      var rest := bytes[1..];
      assert n / 256 < Pow256(|rest|);
      LittleEndianBytes(rest, n / 256);
      forall i | 0 <= i < |rest| ensures ByteAt(n, i + 1) == ByteAt(n / 256, i) && rest[i] == bytes[i + 1] {
        ByteAtNext(n, i);
      }
      ByteAtNext(n, 0);
      if forall i :: 0 <= i < |bytes| ==> ByteAt(n, i) == bytes[i] {
        forall i | 0 <= i < |rest| ensures ByteAt(n / 256, i) == rest[i] {
          assert ByteAt(n, i + 1) == bytes[i + 1];
        }
      }
      if n == LittleEndian(bytes) {
        forall i | 0 <= i < |bytes| ensures ByteAt(n, i) == bytes[i] {
          if i > 0 {
            assert ByteAt(n, i - 1 + 1) == ByteAt(n / 256, i - 1) == rest[i - 1];
          }
        }
      }
    }
  }

  /** uhlc stamps with the number whose byte `i` is byte `i` of the device's UUID. The origin filter
      accepts such a timestamp exactly when the device is this one. */
  lemma {:induction false} OriginIsExact(time: nat, node: nat, writer: seq<Byte>, us: seq<Byte>)
    requires time < U64_BOUND && |writer| == |us| == 16
    requires node < U128_BOUND && forall i :: 0 <= i < 16 ==> ByteAt(node, i) == writer[i]
    ensures IsFromNode(Print(Timestamp(time, node)), LittleEndian(us)) <==> writer == us
  {
    hide ByteAt;
    Pow256Of16();
    LittleEndianBytes(writer, node);
    var t := Timestamp(time, node);
    SplitPrint(t);
    ParseDigits(t.node, 16, U128_BOUND);
    LittleEndianInjective(writer, us);
  }
}
