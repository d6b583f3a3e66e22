/**
 * Frames whose outcome hangs on the memory behind them, told from the bytes of the frame alone: a walk over headers and
 * bodies that looks for an item reaching beyond the end.
 */
module Overhang {
  import opened Wrappers
  import opened Names
  import opened Items
  import opened Bytes
  import opened Encoding
  import opened Decoding
  import opened RoundTrip
  import opened Reparse
  import opened Messages

  /**
   * An item ends inside, or reaches beyond the end in a way that some memory completes, or is refused whatever
   * follows.
   */
  datatype Walked = Inside(end: nat) | Overhang | Fails

  // Bodies

  predicate IsAsciiText(bs: seq<byte>) {
    forall i | 0 <= i < |bs| :: bs[i] < 128
  }

  /** The first two bytes of a float hold its exponent: that of an infinity or a NaN is refused. */
  predicate IsFinite(kind: Kind, first: byte, second: byte) {
    match kind
    case Float4 => !(first % 0x80 == 0x7F && second >= 0x80)
    case Float8 => !(first % 0x80 == 0x7F && second >= 0xF0)
    case _ => true
  }

  predicate AllFinite(kind: Kind, bs: seq<byte>) {
    forall p | 0 <= p < |bs| - 1 && Whole(p, kind.Bytes()) :: IsFinite(kind, bs[p], bs[p + 1])
  }

  predicate AllZero(bs: seq<byte>) {
    forall i | 0 <= i < |bs| :: bs[i] == 0
  }

  function Upto(f: seq<byte>, start: nat, len: nat): seq<byte>
    requires start <= |f|
  {
    f[start..if start + len <= |f| then start + len else |f|]
  }

  // The walk

  function WalkItem(f: seq<byte>, pos: nat, widened: bool): (r: Walked)
    ensures r.Inside? ==> pos < r.end <= |f|
    decreases |f| - pos, 0, 0
  {
    if pos >= |f| then Fails
    else
      var code, count := f[pos] / 4, f[pos] % 4;
      var start := pos + 1 + count;
      if count == 0 then Fails
      else if start > |f| then WalkHeader(code, f[pos + 1..], widened)
      else WalkBody(f, start, code, LengthOf(f[pos + 1..start], widened), widened)
  }

  /**
   * Not all length bytes are there. What must be empty to end behind the frame can only be so if the known ones allow
   * it.
   */
  function WalkHeader(code: nat, known: seq<byte>, widened: bool): Walked {
    if code == LIST_CODE then if widened && !AllZero(known) then Fails else Overhang
    else if code == ASCII_CODE then Overhang
    else if KindOf(code).None? then Fails
    else if ReadByIndex(KindOf(code).value) && widened && !AllZero(known) then Fails
    else Overhang
  }

  function WalkBody(f: seq<byte>, start: nat, code: nat, len: nat, widened: bool): (r: Walked)
    requires start <= |f|
    ensures r.Inside? ==> start <= r.end <= |f|
    decreases |f| - start, 2, 0
  {
    if code == LIST_CODE then WalkItems(f, start, len, widened)
    else if code == ASCII_CODE then
      if !IsAsciiText(Upto(f, start, len)) then Fails else Reaching(f, start, len)
    else if KindOf(code).None? then Fails
    else
      var kind := KindOf(code).value;
      if !Whole(len, kind.Bytes()) || !AllFinite(kind, Upto(f, start, len)) then Fails
      else if ReadByIndex(kind) && start + len > |f| then Fails
      else Reaching(f, start, len)
  }

  function Reaching(f: seq<byte>, start: nat, len: nat): Walked {
    if start + len <= |f| then Inside(start + len) else Overhang
  }

  /** An item that reaches beyond the end leaves no room for another. */
  function WalkItems(f: seq<byte>, pos: nat, count: nat, widened: bool): (r: Walked)
    requires pos <= |f|
    ensures r.Inside? ==> pos <= r.end <= |f|
    decreases |f| - pos, 1, count
  {
    if count == 0 then Inside(pos)
    else
      var front := WalkItems(f, pos, count - 1, widened);
      if front.Inside? then WalkItem(f, front.end, widened) else Fails
  }

  // What the walk says about a parse with memory behind the frame

  const ENOUGH := 0x100_0003

  /** The memory behind the frame holds nothing but zeros, and more of them than any length can name. */
  predicate ZerosBehind(buf: seq<byte>, n: nat)
    requires n <= |buf|
  {
    |buf| >= n + ENOUGH && forall i | n <= i < |buf| :: buf[i] == 0
  }

  /** `end` is where a parse in memory ended, if it did; `zeros` says that zeros are behind the frame. */
  predicate Foretells(w: Walked, end: Option<nat>, n: nat, zeros: bool) {
    match w
    case Inside(e) => end == Some(e)
    case Fails => end == None
    case Overhang => (end.Some? ==> end.value > n) && (zeros ==> end.Some?)
  }

  function EndOf(r: Option<Parsed>): Option<nat> {
    if r.Some? then Some(r.value.end) else None
  }

  function EndOfItems(r: Option<ParsedItems>): Option<nat> {
    if r.Some? then Some(r.value.end) else None
  }

  // Values

  lemma {:induction false} ValueConcat(a: seq<byte>, b: seq<byte>)
    ensures ValueOf(a + b) == ValueOf(a) * Power(|b|) + ValueOf(b)
  {
    if b == [] {
      assert a + b == a;
    } else {
      ValueConcat(a, Front(b));
      assert Front(a + b) == a + Front(b);
      Shifted(ValueOf(a), Power(|b| - 1));
    }
  }

  lemma Shifted(a: nat, p: nat)
    ensures a * p * 0x100 == a * (0x100 * p)
  {
  }

  /** The first two bytes of a value, and the rest. */
  lemma HeadOf(bs: seq<byte>)
    requires |bs| >= 2
    ensures ValueOf(bs) == (bs[0] as int * 0x100 + bs[1] as int) * Power(|bs| - 2) + ValueOf(bs[2..])
    ensures ValueOf(bs[2..]) < Power(|bs| - 2)
  {
    hide ValueOf, Power;
    assert bs == bs[..2] + bs[2..] && bs[..2] == [bs[0], bs[1]];
    ValueConcat(bs[..2], bs[2..]);
    ValueBound(bs[2..]);
    ValueOfFew(bs[0], bs[1], 0);
  }

  lemma Exponent4(first: byte, second: byte, rest: nat)
    requires rest < 0x1_0000
    ensures var v := (first as int * 0x100 + second as int) * 0x1_0000 + rest;
      Float4.Fits(v) <==> IsFinite(Float4, first, second)
  {
    var v := (first as int * 0x100 + second as int) * 0x1_0000 + rest;
    var high, low := second / 0x80, second % 0x80;
    assert v == (first as int * 2 + high as int) * 0x80_0000 + (low as int * 0x1_0000 + rest);
    assert v / 0x80_0000 == first as int * 2 + high as int;
  }

  lemma Exponent8(first: byte, second: byte, rest: nat)
    requires rest < 0x1_0000_0000_0000
    ensures var v := (first as int * 0x100 + second as int) * 0x1_0000_0000_0000 + rest;
      Float8.Fits(v) <==> IsFinite(Float8, first, second)
  {
    var v := (first as int * 0x100 + second as int) * 0x1_0000_0000_0000 + rest;
    var high, low := second / 0x10, second % 0x10;
    assert v == (first as int * 0x10 + high as int) * 0x10_0000_0000_0000 + (low as int * 0x1_0000_0000_0000 + rest);
    Quotient(first as int * 0x10 + high as int, low as int * 0x1_0000_0000_0000 + rest);
    HighBits(first, high);
  }

  lemma Quotient(q: nat, r: nat)
    requires r < 0x10_0000_0000_0000
    ensures (q * 0x10_0000_0000_0000 + r) / 0x10_0000_0000_0000 == q
  {
  }

  lemma HighBits(first: byte, high: nat)
    requires high < 0x10
    ensures (first as int * 0x10 + high) % 0x800 == 0x7FF <==> first % 0x80 == 0x7F && high == 0xF
  {
  }

  /** A value of any kind is accepted exactly when it is no infinity and no NaN. */
  lemma FitsIffFinite(kind: Kind, bs: seq<byte>)
    requires |bs| == kind.Bytes()
    ensures kind.Fits(DecodeValue(kind, bs)) <==> |bs| >= 2 ==> IsFinite(kind, bs[0], bs[1])
  {
    hide ValueOf, Power;
    match kind
    case Float4 =>
      HeadOf(bs);
      PowerOfWidth(2);
      Exponent4(bs[0], bs[1], ValueOf(bs[2..]));
      ValueBound(bs);
      PowerOfWidth(4);
    case Float8 =>
      HeadOf(bs);
      PowerSix();
      Exponent8(bs[0], bs[1], ValueOf(bs[2..]));
      ValueBound(bs);
      PowerOfWidth(8);
    case Signed(w) =>
      FromBitsFits(bs, w);
    case Unsigned(w) =>
      FromBitsFits(bs, w);
    case Binary =>
      FromBitsFits(bs, 1);
    case Boolean =>
  }

  lemma PowerSix()
    ensures Power(6) == 0x1_0000_0000_0000
  {
    PowerOfWidth(4);
    assert Power(6) == 0x100 * (0x100 * Power(4));
  }

  predicate AllFit(kind: Kind, cells: seq<Cell>) {
    forall i | 0 <= i < |cells| :: cells[i].Lit? && kind.Fits(cells[i].value)
  }

  lemma AllFitSnoc(kind: Kind, cells: seq<Cell>, v: int)
    ensures AllFit(kind, cells + [Lit(v)]) <==> AllFit(kind, cells) && kind.Fits(v)
  {
    hide Kind.Fits;
    var all := cells + [Lit(v)];
    assert all[..|cells|] == cells && all[|cells|] == Lit(v);
    if AllFit(kind, all) {
      assert forall i | 0 <= i < |cells| :: cells[i] == all[i];
    }
  }

  lemma LastCell(kind: Kind, bs: seq<byte>)
    requires |bs| >= kind.Bytes()
    ensures var at := |bs| - kind.Bytes();
      DecodeCells(kind, bs) == DecodeCells(kind, bs[..at]) + [Lit(DecodeValue(kind, bs[at..]))]
  {
    hide DecodeValue;
  }

  lemma NoCell(kind: Kind, bs: seq<byte>)
    requires |bs| < kind.Bytes() && Whole(|bs|, kind.Bytes())
    ensures AllFit(kind, DecodeCells(kind, bs)) && AllFinite(kind, bs)
  {
    SmallMultiple(|bs|, kind.Bytes());
  }

  lemma {:induction false} CellsFitIff(kind: Kind, bs: seq<byte>)
    requires Whole(|bs|, kind.Bytes())
    ensures AllFit(kind, DecodeCells(kind, bs)) <==> AllFinite(kind, bs)
    decreases |bs|
  {
    hide DecodeCells, DecodeValue, Kind.Fits, IsFinite, Kind.Bytes, AllFit, AllFinite, Whole;
    var w := kind.Bytes();
    if |bs| < w {
      NoCell(kind, bs);
      return;
    }
    var at := |bs| - w;
    OneLess(|bs|, w);
    LastCell(kind, bs);
    CellsFitIff(kind, bs[..at]);
    AllFitSnoc(kind, DecodeCells(kind, bs[..at]), DecodeValue(kind, bs[at..]));
    FitsIffFinite(kind, bs[at..]);
    FiniteLast(kind, bs);
  }

  lemma FiniteLast(kind: Kind, bs: seq<byte>)
    requires Whole(|bs|, kind.Bytes()) && |bs| >= kind.Bytes()
    ensures var at := |bs| - kind.Bytes();
      AllFinite(kind, bs) <==> AllFinite(kind, bs[..at]) && (kind.Bytes() >= 2 ==> IsFinite(kind, bs[at], bs[at + 1]))
  {
    hide IsFinite;
    var w := kind.Bytes();
    var at := |bs| - w;
    OneLess(|bs|, w);
    if AllFinite(kind, bs[..at]) && (w >= 2 ==> IsFinite(kind, bs[at], bs[at + 1])) {
      forall p | 0 <= p < |bs| - 1 && Whole(p, w) ensures IsFinite(kind, bs[p], bs[p + 1]) {
        if w == 1 {
          OneByteFinite(kind, bs[p], bs[p + 1]);
        } else {
          NoneBetween(p, at, w);
        }
      }
    }
    if AllFinite(kind, bs) {
      forall p | 0 <= p < at - 1 && Whole(p, w) ensures IsFinite(kind, bs[..at][p], bs[..at][p + 1]) {
        assert bs[..at][p] == bs[p] && bs[..at][p + 1] == bs[p + 1];
      }
    }
  }

  lemma OneByteFinite(kind: Kind, first: byte, second: byte)
    requires kind.Bytes() == 1
    ensures IsFinite(kind, first, second)
  {
  }

  /** Values start `w` bytes apart. */
  lemma NoneBetween(p: nat, at: nat, w: Width)
    requires Whole(p, w) && Whole(at, w) && w > 1
    ensures p < at ==> p + 1 < at
    ensures at < p ==> at + w <= p
  {
  }

  lemma CellsOkIff(kind: Kind, bs: seq<byte>)
    requires Whole(|bs|, kind.Bytes()) && |bs| <= MAX_BYTE_SIZE
    ensures CellsOk(kind, DecodeCells(kind, bs)) <==> AllFinite(kind, bs)
  {
    hide DecodeCells, AllFinite, Kind.Bytes, Kind.Fits, Whole;
    var cells := DecodeCells(kind, bs);
    DecodedCount(kind, bs);
    DecodedCellsLits(kind, bs);
    CellsFitIff(kind, bs);
    NoCellNames(cells);
    assert AllFit(kind, cells) <==> forall c | c in cells :: c.Lit? && kind.Fits(c.value) by {
      if AllFit(kind, cells) {
        forall c | c in cells ensures c.Lit? && kind.Fits(c.value) {
          var i :| 0 <= i < |cells| && cells[i] == c;
        }
      }
    }
  }

  // What an item is made of when its bytes are not all there

  lemma LengthNamed(bs: seq<byte>, widened: bool)
    requires 1 <= |bs| <= 3
    ensures LengthOf(bs, widened) <= MAX_BYTE_SIZE
  {
    LengthOfFew(bs, widened);
  }

  lemma TextForetold(f: seq<byte>, buf: seq<byte>, start: nat, len: nat)
    requires start <= |f| <= |buf| && buf[..|f|] == f && len <= MAX_BYTE_SIZE
    ensures Foretells(if !IsAsciiText(Upto(f, start, len)) then Fails else Reaching(f, start, len),
      EndOf(ParseAscii(buf, start, len)), |f|, ZerosBehind(buf, |f|))
  {
    var known := Upto(f, start, len);
    KnownBytes(f, buf, start, len);
    if start + len <= |buf| {
      var text := buf[start..start + len];
      TextAccepted(text, known);
      if ZerosBehind(buf, |f|) && IsAsciiText(known) {
        forall i | 0 <= i < |text| ensures text[i] < 128 {
          assert i < |known| ==> known[i] == text[i];
        }
      }
    }
  }

  /** The bytes of the frame that belong to a body. */
  lemma KnownBytes(f: seq<byte>, buf: seq<byte>, start: nat, len: nat)
    requires start <= |f| <= |buf| && buf[..|f|] == f
    ensures var known := Upto(f, start, len);
      && |known| <= len && |known| == (if start + len <= |f| then len else |f| - start)
      && known == buf[start..start + |known|]
      && (start + len <= |buf| ==> known == buf[start..start + len][..|known|])
  {
    var known := Upto(f, start, len);
    PrefixSlice(buf, |f|, start, start + |known|);
    if start + len <= |buf| {
      Resliced(buf, start, len, |known|);
    }
  }

  lemma Resliced(buf: seq<byte>, start: nat, len: nat, m: nat)
    requires start + len <= |buf| && m <= len
    ensures buf[start..start + len][..m] == buf[start..start + m]
  {
  }

  lemma TextAccepted(text: seq<byte>, known: seq<byte>)
    requires |text| <= MAX_BYTE_SIZE && known <= text
    ensures Rep(Ascii(text)) <==> IsAsciiText(text)
    ensures IsAsciiText(text) ==> IsAsciiText(known)
  {
    if IsAsciiText(text) {
      forall i | 0 <= i < |known| ensures known[i] < 128 {
        assert known[i] == text[i];
      }
    }
    if Rep(Ascii(text)) {
      forall i | 0 <= i < |text| ensures text[i] < 128 {
        assert text[i] in text;
      }
    }
  }

  lemma NumbersForetold(kind: Kind, f: seq<byte>, buf: seq<byte>, start: nat, len: nat)
    requires start <= |f| <= |buf| && buf[..|f|] == f && len <= MAX_BYTE_SIZE
    ensures Foretells(
      if !Whole(len, kind.Bytes()) || !AllFinite(kind, Upto(f, start, len)) then Fails
      else if ReadByIndex(kind) && start + len > |f| then Fails
      else Reaching(f, start, len),
      EndOf(ParseNumbers(kind, buf, |f|, start, len)), |f|, ZerosBehind(buf, |f|))
  {
    hide DecodeCells, CellsOk, Whole, IsFinite, Kind.Bytes, AllFinite;
    if !Whole(len, kind.Bytes()) || len == 0 {
      NothingFinite(kind);
      assert len == 0 ==> Upto(f, start, len) == [];
      NoValues(kind, buf, |f|, start);
      return;
    }
    var known := Upto(f, start, len);
    KnownBytes(f, buf, start, len);
    if start + len <= |buf| {
      var bs := buf[start..start + len];
      CellsOkIff(kind, bs);
      FiniteStart(kind, bs, |known|);
      if ZerosBehind(buf, |f|) {
        assert forall i | |known| <= i < |bs| :: bs[i] == 0;
      }
    }
  }

  lemma NoValues(kind: Kind, buf: seq<byte>, n: nat, start: nat)
    requires start <= |buf|
    ensures Whole(0, kind.Bytes()) && ParseNumbers(kind, buf, n, start, 0) == Some(Parsed(Numbers(kind, []), start))
  {
  }

  lemma NothingFinite(kind: Kind)
    ensures AllFinite(kind, [])
  {
  }

  /** Zeros complete whatever values have been finite so far. */
  lemma FiniteStart(kind: Kind, bs: seq<byte>, m: nat)
    requires m <= |bs|
    ensures AllFinite(kind, bs) ==> AllFinite(kind, bs[..m])
    ensures AllFinite(kind, bs[..m]) && (forall i | m <= i < |bs| :: bs[i] == 0) ==> AllFinite(kind, bs)
  {
    hide Whole, Kind.Bytes;
    if AllFinite(kind, bs) {
      forall p | 0 <= p < m - 1 && Whole(p, kind.Bytes()) ensures IsFinite(kind, bs[..m][p], bs[..m][p + 1]) {
        assert bs[..m][p] == bs[p] && bs[..m][p + 1] == bs[p + 1];
      }
    }
    if AllFinite(kind, bs[..m]) && forall i | m <= i < |bs| :: bs[i] == 0 {
      forall p | 0 <= p < |bs| - 1 && Whole(p, kind.Bytes()) ensures IsFinite(kind, bs[p], bs[p + 1]) {
        if p + 1 < m {
          assert bs[..m][p] == bs[p] && bs[..m][p + 1] == bs[p + 1];
        }
      }
    }
  }

  // A header that is not all there

  lemma {:induction false} NoChildBehind(buf: seq<byte>, n: nat, pos: nat, count: nat, widened: bool)
    requires n <= pos <= |buf| && count > 0
    ensures ParseItems(buf, n, pos, count, widened) == None
  {
    if count > 1 {
      NoChildBehind(buf, n, pos, count - 1, widened);
    } else {
      assert ParseItems(buf, n, pos, 0, widened) == Some(ParsedItems([], pos));
    }
  }

  lemma {:induction false} ZeroIff(bs: seq<byte>)
    ensures ValueOf(bs) == 0 <==> AllZero(bs)
  {
    if bs != [] {
      ZeroIff(Front(bs));
      ZeroSnoc(bs);
    }
  }

  lemma ZeroSnoc(bs: seq<byte>)
    requires bs != []
    ensures AllZero(bs) <==> AllZero(Front(bs)) && Last(bs) == 0
  {
    if AllZero(Front(bs)) && Last(bs) == 0 {
      forall i | 0 <= i < |bs| ensures bs[i] == 0 {
        assert i < |bs| - 1 ==> Front(bs)[i] == bs[i];
      }
    }
  }

  lemma WholeBlocks(q: nat)
    ensures Whole(q * 0x100, 8) && Whole(q * 0x100, 4) && Whole(q * 0x100, 2) && Whole(0, 8) && Whole(0, 4) &&
      Whole(0, 2)
  {
  }

  lemma ZerosAdded(bs: seq<byte>, m: nat)
    requires m < |bs|
    ensures AllZero(bs) ==> AllZero(bs[..m])
    ensures (forall i | m <= i < |bs| :: bs[i] == 0) ==> Last(bs) == 0 && (AllZero(bs[..m]) ==> AllZero(bs))
  {
    forall i | 0 <= i < m ensures bs[..m][i] == bs[i] {
    }
  }

  /** Length bytes of which the last ones are missing, and what they spell with zeros for those. */
  lemma PartLength(bs: seq<byte>, known: seq<byte>, widened: bool)
    requires 1 <= |bs| <= 3 && known <= bs && |known| < |bs|
    ensures widened && !AllZero(known) ==> LengthOf(bs, widened) > 0
    ensures (forall i | |known| <= i < |bs| :: bs[i] == 0) ==>
      var len := LengthOf(bs, widened);
      WholeOfAny(len) && (!widened || AllZero(known) ==> len == 0)
  {
    hide LengthOf, AllZero, Whole, ValueOf;
    LengthOfFew(bs, widened);
    assert known == bs[..|known|];
    ZerosAdded(bs, |known|);
    ZeroIff(bs);
    WholeBlocks(ValueOf(Front(bs)));
    LastByte(bs);
  }

  lemma LastByte(bs: seq<byte>)
    requires bs != []
    ensures ValueOf(bs) == ValueOf(Front(bs)) * 0x100 + Last(bs)
  {
  }

  lemma HeaderForetold(f: seq<byte>, buf: seq<byte>, start: nat, code: nat, bs: seq<byte>, known: seq<byte>,
                       widened: bool)
    requires |f| < start <= |buf| && buf[..|f|] == f
    requires 1 <= |bs| <= 3 && known <= bs && |known| < |bs|
    requires ZerosBehind(buf, |f|) ==> start + MAX_BYTE_SIZE <= |buf| && forall i | |known| <= i < |bs| :: bs[i] == 0
    ensures Foretells(WalkHeader(code, known, widened),
      EndOf(ParseBody(buf, |f|, start, code, LengthOf(bs, widened), widened)), |f|, ZerosBehind(buf, |f|))
  {
    hide LengthOf, AllZero, ParseItems, ParseNumbers, ParseAscii, KindOf, Whole, ListOk;
    var len := LengthOf(bs, widened);
    LengthNamed(bs, widened);
    PartLength(bs, known, widened);
    if code == LIST_CODE {
      NoChildren(buf, |f|, start, widened);
      if len > 0 {
        NoChildBehind(buf, |f|, start, len, widened);
      }
    } else if code == ASCII_CODE {
      if ZerosBehind(buf, |f|) {
        ZeroText(buf, start, len);
      }
    } else if KindOf(code).Some? {
      NumbersBehind(KindOf(code).value, buf, |f|, start, len);
    }
  }

  lemma NoChildren(buf: seq<byte>, n: nat, pos: nat, widened: bool)
    requires n <= |buf| && pos <= |buf|
    ensures ParseItems(buf, n, pos, 0, widened) == Some(ParsedItems([], pos)) && ListOk([])
  {
  }

  lemma ZeroText(buf: seq<byte>, start: nat, len: nat)
    requires start + len <= |buf| && len <= MAX_BYTE_SIZE && forall i | start <= i < |buf| :: buf[i] == 0
    ensures ParseAscii(buf, start, len).Some?
  {
  }

  /** A whole number of values, whatever their width. */
  predicate WholeOfAny(len: nat) {
    Whole(len, 8) && Whole(len, 4) && Whole(len, 2)
  }

  /** Values that would all lie behind the frame. */
  lemma NumbersBehind(kind: Kind, buf: seq<byte>, n: nat, start: nat, len: nat)
    requires n < start <= |buf| && len <= MAX_BYTE_SIZE
    ensures var r := ParseNumbers(kind, buf, n, start, len);
      && (ReadByIndex(kind) && len > 0 ==> r == None)
      && (len == 0 ==> r.Some?)
      && (!ReadByIndex(kind) && ZerosBehind(buf, n) && start + len <= |buf| && WholeOfAny(len) ==> r.Some?)
  {
    hide DecodeCells, CellsOk, IsFinite, Kind.Bytes, AllFinite;
    NoValues(kind, buf, n, start);
    if len > 0 && ZerosBehind(buf, n) && start + len <= |buf| && Whole(len, kind.Bytes()) {
      var bs := buf[start..start + len];
      CellsOkIff(kind, bs);
      NothingFinite(kind);
      FiniteStart(kind, bs, 0);
      assert bs[..0] == [];
    }
  }

  // The walk foretells the parse

  lemma {:induction false} ItemForetold(f: seq<byte>, buf: seq<byte>, pos: nat, widened: bool)
    requires |f| <= |buf| && buf[..|f|] == f
    ensures Foretells(WalkItem(f, pos, widened), EndOf(ParseItem(buf, |f|, pos, widened)), |f|, ZerosBehind(buf, |f|))
    decreases |f| - pos, 0, 0
  {
    if pos >= |f| {
      return;
    }
    hide LengthOf, WalkBody, WalkHeader, ParseBody, Foretells;
    assert f[pos] == buf[pos];
    var code, count := f[pos] / 4, f[pos] % 4;
    var start := pos + 1 + count;
    Refused(|f|, ZerosBehind(buf, |f|));
    if count == 0 {
    } else if start <= |f| {
      PrefixSlice(buf, |f|, pos + 1, start);
      LengthNamed(buf[pos + 1..start], widened);
      BodyForetold(f, buf, start, code, LengthOf(f[pos + 1..start], widened), widened);
    } else {
      CutHeader(f, buf, pos, start, code, widened);
    }
  }

  lemma Refused(n: nat, zeros: bool)
    ensures Foretells(Fails, None, n, zeros)
  {
  }

  lemma CutHeader(f: seq<byte>, buf: seq<byte>, pos: nat, start: nat, code: nat, widened: bool)
    requires pos < |f| < start <= pos + 4 && |f| <= |buf| && buf[..|f|] == f && pos + 1 < start
    ensures var end := if start > |buf| then None
                       else EndOf(ParseBody(buf, |f|, start, code, LengthOf(buf[pos + 1..start], widened), widened));
      Foretells(WalkHeader(code, f[pos + 1..], widened), end, |f|, ZerosBehind(buf, |f|))
  {
    hide LengthOf, ParseBody, KindOf, AllZero;
    if start <= |buf| {
      var bs, known := buf[pos + 1..start], f[pos + 1..];
      PrefixSlice(buf, |f|, pos + 1, |f|);
      Resliced(buf, pos + 1, start - pos - 1, |known|);
      HeaderForetold(f, buf, start, code, bs, known, widened);
    } else {
      NotMissing(code, f[pos + 1..], |f|, widened);
    }
  }

  lemma NotMissing(code: nat, known: seq<byte>, n: nat, widened: bool)
    ensures Foretells(WalkHeader(code, known, widened), None, n, false)
  {
  }

  lemma {:induction false} BodyForetold(f: seq<byte>, buf: seq<byte>, start: nat, code: nat, len: nat, widened: bool)
    requires start <= |f| <= |buf| && buf[..|f|] == f && len <= MAX_BYTE_SIZE
    ensures Foretells(WalkBody(f, start, code, len, widened), EndOf(ParseBody(buf, |f|, start, code, len, widened)),
      |f|, ZerosBehind(buf, |f|))
    decreases |f| - start, 2, 0
  {
    hide ParseItems, ParseNumbers, ParseAscii, ListOk, KindOf, WalkItems, AllFinite, IsAsciiText, Upto, Kind.Bytes,
      Whole;
    if code == LIST_CODE {
      ItemsForetold(f, buf, start, len, widened);
      ListAccepted(buf, |f|, start, len, widened);
    } else if code == ASCII_CODE {
      TextForetold(f, buf, start, len);
    } else if KindOf(code).Some? {
      NumbersForetold(KindOf(code).value, f, buf, start, len);
    }
  }

  /** The list factory has nothing to refuse in what was parsed. */
  lemma ListAccepted(buf: seq<byte>, n: nat, pos: nat, count: nat, widened: bool)
    requires n <= |buf| && pos <= |buf| && count <= MAX_BYTE_SIZE
    ensures var r := ParseItems(buf, n, pos, count, widened); r.Some? ==> ListOk(r.value.items)
  {
    hide ParseItems, Rep, Decodable, WireLengths, ListVariables;
    var r := ParseItems(buf, n, pos, count, widened);
    if r.Some? {
      ParsedItemsSound(buf, n, pos, count, widened);
      assert Distinct([]);
    }
  }

  lemma {:induction false} ItemsForetold(f: seq<byte>, buf: seq<byte>, pos: nat, count: nat, widened: bool)
    requires pos <= |f| <= |buf| && buf[..|f|] == f
    ensures Foretells(WalkItems(f, pos, count, widened), EndOfItems(ParseItems(buf, |f|, pos, count, widened)), |f|,
      ZerosBehind(buf, |f|))
    decreases |f| - pos, 1, count
  {
    hide ParseItem, WalkItem;
    if count > 0 {
      ItemsForetold(f, buf, pos, count - 1, widened);
      var front := WalkItems(f, pos, count - 1, widened);
      if front.Inside? {
        ItemForetold(f, buf, front.end, widened);
      } else if ParseItems(buf, |f|, pos, count - 1, widened).Some? {
        NoItemBehind(buf, |f|, ParseItems(buf, |f|, pos, count - 1, widened).value.end, widened);
      }
    }
  }

  lemma NoItemBehind(buf: seq<byte>, n: nat, pos: nat, widened: bool)
    requires n <= |buf| && pos >= n
    ensures ParseItem(buf, n, pos, widened) == None
  {
  }

  // Messages

  /** A data message whose item reaches beyond the end of the frame, to be completed by what lies behind. */
  predicate Overhangs(f: seq<byte>, widened: bool) {
    && |f| > 14 && ValueOf(f[..4]) == |f| - 4
    && f[8] == 0 && f[9] == 0 && DataOk(ParsedData(f[4..14], Empty))
    && WalkItem(f, 14, widened) == Overhang
  }

  lemma OverhangForetold(f: seq<byte>, buf: seq<byte>, widened: bool)
    requires |f| <= |buf| && buf[..|f|] == f
    ensures RunsPast(buf, |f|, widened) ==> Overhangs(f, widened)
    ensures Overhangs(f, widened) && ZerosBehind(buf, |f|) ==> RunsPast(buf, |f|, widened)
  {
    hide WalkItem, ParseItem, ValueOf, DataOk;
    if |f| > 14 {
      PrefixSlice(buf, |f|, 0, 4);
      PrefixSlice(buf, |f|, 4, 14);
      assert f[0..4] == f[..4];
      assert f[4..14][4] == f[8] && f[4..14][5] == f[9];
      ItemForetold(f, buf, 14, widened);
      AnyText(f[4..14]);
    }
  }

  lemma AnyText(header: seq<byte>)
    requires |header| == 10
    ensures forall item :: DataOk(ParsedData(header, item)) <==> DataOk(ParsedData(header, Empty))
  {
  }

  function Zeros(n: nat): (bs: seq<byte>)
    ensures |bs| == n && forall i | 0 <= i < n :: bs[i] == 0
  {
    seq(n, _ => 0)
  }

  /** A frame has one outcome, whatever lies in memory behind it, exactly when it does not overhang. */
  lemma MemoryMattersIff(f: seq<byte>, widened: bool)
    ensures (forall memory: seq<byte> :: ParseMessage(f + memory, |f|, widened) == ParseMessage(f, |f|, widened))
        <==> !Overhangs(f, widened)
  {
    hide ParseMessage, RunsPast, Overhangs;
    if Overhangs(f, widened) {
      OneMemory(f, Zeros(ENOUGH), widened);
      assert RunsPast(f + Zeros(ENOUGH), |f|, widened);
      RunningPast(f + Zeros(ENOUGH), |f|, widened);
      assert ParseMessage(f + Zeros(ENOUGH), |f|, widened) != ParseMessage(f, |f|, widened);
    } else {
      forall memory: seq<byte> ensures ParseMessage(f + memory, |f|, widened) == ParseMessage(f, |f|, widened) {
        OneMemory(f, memory, widened);
      }
    }
  }

  lemma OneMemory(f: seq<byte>, memory: seq<byte>, widened: bool)
    ensures RunsPast(f + memory, |f|, widened) ==> Overhangs(f, widened)
    ensures Overhangs(f, widened) && memory == Zeros(ENOUGH) ==> RunsPast(f + memory, |f|, widened)
    ensures ParseMessage(f, |f|, widened) == if RunsPast(f + memory, |f|, widened) then None
      else ParseMessage(f + memory, |f|, widened)
  {
    hide ParseMessage, RunsPast, Overhangs;
    var buf := f + memory;
    assert buf[..|f|] == f;
    OverhangForetold(f, buf, widened);
    MemoryMattersIffRunsPast(buf, |f|, widened);
  }

  lemma RunningPast(buf: seq<byte>, n: nat, widened: bool)
    requires n <= |buf| && RunsPast(buf, n, widened)
    ensures ParseMessage(buf, n, widened).Some?
  {
    hide ParseMessage, TextEnd;
  }
}
