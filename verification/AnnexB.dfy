/** Annex B byte streams and length-prefixed samples (internal/avgrabber/convert.go).

An Annex B stream is a sequence of NAL units, each introduced by a 3-byte (00 00 01) or
4-byte (00 00 00 01) start code. `Split` is what the splitter computes; the lemmas say which
streams it takes apart without loss, and what the length-prefixed output decodes to.
*/
module AnnexB {
  import opened Wrappers

  type Byte = b: int | 0 <= b < 256
  type Bytes = seq<Byte>

  datatype StartCode = Short | Long
  datatype Unit = Unit(code: StartCode, nal: Bytes)

  // ---------------------------------------------------------------- splitting

  /** annexBStartCodeLen: length of the start code at position i, 0 when there is none. */
  function StartCodeLen(d: Bytes, i: nat): (n: nat)
    ensures i <= |d| ==> i + n <= |d|
  {
    if i + 3 < |d| && d[i] == 0 && d[i + 1] == 0 && d[i + 2] == 0 && d[i + 3] == 1 then 4
    else if i + 2 < |d| && d[i] == 0 && d[i + 1] == 0 && d[i + 2] == 1 then 3
    else 0
  }

  ghost predicate NoCodeIn(d: Bytes, lo: nat, hi: nat) {
    forall k :: lo <= k < hi ==> StartCodeLen(d, k) == 0
  }

  /** Position of the first start code at or after i, or the length when there is none. */
  function Scan(d: Bytes, i: nat): (j: nat)
    requires i <= |d|
    ensures i <= j <= |d| && NoCodeIn(d, i, j)
    ensures j < |d| ==> StartCodeLen(d, j) > 0
    decreases |d| - i
  {
    if i == |d| || StartCodeLen(d, i) > 0 then i else Scan(d, i + 1)
  }

  lemma {:induction false} ScanUnique(d: Bytes, i: nat, j: nat)
    requires i <= j <= |d| && NoCodeIn(d, i, j)
    requires j < |d| ==> StartCodeLen(d, j) > 0
    ensures Scan(d, i) == j
    decreases j - i
  {
    if i < j { ScanUnique(d, i + 1, j); }
  }

  function NonEmpty(nal: Bytes): seq<Bytes> {
    if nal == [] then [] else [nal]
  }

  /** The NAL units of the bytes from i on. */
  function SplitFrom(d: Bytes, i: nat): (nals: seq<Bytes>)
    requires i <= |d|
    decreases |d| - i
  {
    var j := Scan(d, i);
    NonEmpty(d[i..j]) + if j == |d| then [] else SplitFrom(d, j + StartCodeLen(d, j))
  }

  function Split(d: Bytes): (nals: seq<Bytes>) { SplitFrom(d, 0) }

  function SplitAfter(d: Bytes, j: nat): seq<Bytes>
    requires j <= |d|
  {
    if j == |d| then [] else SplitFrom(d, j + StartCodeLen(d, j))
  }

  lemma SplitFromAt(d: Bytes, i: nat, j: nat)
    requires i <= j <= |d| && NoCodeIn(d, i, j)
    requires j < |d| ==> StartCodeLen(d, j) > 0
    ensures SplitFrom(d, i) == NonEmpty(d[i..j]) + SplitAfter(d, j)
  {
    hide StartCodeLen, NonEmpty;
    ScanUnique(d, i, j);
  }

  /** What one round of the scan, or its end, appends. */
  lemma SplitStep(acc: seq<Bytes>, d: Bytes, i: nat, j: nat)
    requires i <= j <= |d| && NoCodeIn(d, i, j)
    requires j < |d| ==> StartCodeLen(d, j) > 0
    ensures i == j ==> acc + SplitFrom(d, i) == acc + SplitAfter(d, j)
    ensures i < j ==> acc + SplitFrom(d, i) == (acc + [d[i..j]]) + SplitAfter(d, j)
    ensures i < j == |d| ==> acc + SplitFrom(d, i) == acc + [d[i..]]
    ensures i == j == |d| ==> acc + SplitFrom(d, i) == acc
  {
    hide SplitFrom, StartCodeLen, NoCodeIn;
    SplitFromAt(d, i, j);
    Assoc(acc, NonEmpty(d[i..j]), SplitAfter(d, j));
    if j == |d| { assert d[i..j] == d[i..]; }
  }

  lemma Assoc<T>(a: seq<T>, b: seq<T>, c: seq<T>)
    ensures a + (b + c) == (a + b) + c
  {}

  /** splitAnnexB: one left-to-right scan with a pending start. */
  method SplitAnnexB(data: Bytes) returns (nals: seq<Bytes>)
    ensures nals == Split(data)
  {
    hide SplitFrom, StartCodeLen;
    nals := [];
    var start, i := 0, 0;
    while i < |data|
      invariant 0 <= start <= i <= |data|
      invariant NoCodeIn(data, start, i)
      invariant nals + SplitFrom(data, start) == Split(data)
    {
      var scLen := StartCodeLen(data, i);
      if scLen == 0 {
        i := i + 1;
        continue;
      }
      SplitStep(nals, data, start, i);
      if i > start {
        nals := nals + [data[start..i]];
      }
      start := i + scLen;
      i := start;
    }
    SplitStep(nals, data, start, i);
    if start < |data| {
      nals := nals + [data[start..]];
    }
  }

  // ---------------------------------------------------------------- joining

  function CodeBytes(c: StartCode): (b: Bytes) {
    match c
    case Short => [0, 0, 1]
    case Long => [0, 0, 0, 1]
  }

  function Join(units: seq<Unit>): (d: Bytes) {
    if units == [] then []
    else CodeBytes(units[0].code) + units[0].nal + Join(units[1..])
  }

  function Nals(units: seq<Unit>): (nals: seq<Bytes>) {
    if units == [] then [] else [units[0].nal] + Nals(units[1..])
  }

  /** Every NAL behind a 4-byte start code. */
  function LongUnits(nals: seq<Bytes>): (units: seq<Unit>)
    ensures Nals(units) == nals
    ensures forall u :: u in units ==> u.code.Long? && u.nal in nals
  {
    if nals == [] then []
    else
      var rest := LongUnits(nals[1..]);
      assert ([Unit(Long, nals[0])] + rest)[1..] == rest;
      [Unit(Long, nals[0])] + rest
  }

  predicate ShortCodeAt(d: Bytes, k: nat)
    requires k + 3 <= |d|
  {
    d[k] == 0 && d[k + 1] == 0 && d[k + 2] == 1
  }

  /** No 00 00 01 inside: what section 7.4.1 of ITU-T H.264 guarantees of a NAL unit. */
  predicate CodeFree(nal: Bytes) {
    forall k :: 0 <= k <= |nal| - 3 ==> !ShortCodeAt(nal, k)
  }

  predicate EndsInZero(nal: Bytes) {
    nal != [] && nal[|nal| - 1] == 0
  }

  predicate AllCodeFree(units: seq<Unit>) {
    forall u :: u in units ==> CodeFree(u.nal)
  }

  /** The part of a NAL the splitter sees: a zero in front of a 3-byte code reads as a 4-byte code. */
  function Seen(nal: Bytes, next: seq<Unit>): Bytes {
    if next != [] && next[0].code.Short? && EndsInZero(nal) then nal[..|nal| - 1] else nal
  }

  function SeenAll(nal: Bytes, next: seq<Unit>): (nals: seq<Bytes>)
    decreases next
  {
    NonEmpty(Seen(nal, next)) + if next == [] then [] else SeenAll(next[0].nal, next[1..])
  }

  lemma Parts(d: Bytes, i: nat, a: Bytes, b: Bytes)
    requires i <= |d| && d[i..] == a + b
    ensures i + |a| <= |d| && d[i..i + |a|] == a && d[i + |a|..] == b
  {
    assert |d[i..]| == |a| + |b|;
    assert d[i..i + |a|] == d[i..][..|a|];
    assert d[i + |a|..] == d[i..][|a|..];
  }

  /** Where the bytes of the first piece and of the code behind it lie. */
  lemma Layout(d: Bytes, i: nat, nal: Bytes, next: seq<Unit>)
    requires i <= |d| && d[i..] == nal + Join(next)
    ensures i + |nal| <= |d| && d[i..i + |nal|] == nal
    ensures next == [] ==> i + |nal| == |d|
    ensures next != [] ==>
              var p, c := i + |nal|, CodeBytes(next[0].code);
              && p + |c| <= |d| && d[p..p + |c|] == c
              && d[p + |c|..] == next[0].nal + Join(next[1..])
  {
    hide CodeBytes;
    Parts(d, i, nal, Join(next));
    if next != [] {
      var c := CodeBytes(next[0].code);
      Assoc(c, next[0].nal, Join(next[1..]));
      Parts(d, i + |nal|, c, next[0].nal + Join(next[1..]));
    }
  }

  lemma NoCodeBefore(d: Bytes, i: nat, nal: Bytes, next: seq<Unit>, k: nat)
    requires i <= |d| && d[i..] == nal + Join(next)
    requires CodeFree(nal) && i <= k < i + |Seen(nal, next)|
    ensures StartCodeLen(d, k) == 0
  {
    hide Join, CodeFree;
    Layout(d, i, nal, next);
    var p, n := i + |nal|, StartCodeLen(d, k);
    if n > 0 {
      var one := k + n - 1;  // where the 01 of a code at k would be
      assert d[one - 2] == d[one - 1] == 0 && d[one] == 1;
      if one < p {
        hide StartCodeLen;
        assert d[i..p][one - 2 - i] == 0 && d[i..p][one - 1 - i] == 0 && d[i..p][one - i] == 1;
        assert ShortCodeAt(nal, one - 2 - i);
        NoShortCode(nal, one - 2 - i);
      } else {
        CodeAcross(d, i, nal, next, k);
      }
    }
  }

  /** A code found in the middle of a boundary borrows the last byte of the piece in front. */
  lemma CodeAcross(d: Bytes, i: nat, nal: Bytes, next: seq<Unit>, k: nat)
    requires i <= |d| && d[i..] == nal + Join(next) && next != []
    requires i <= k < i + |nal| < k + StartCodeLen(d, k)
    ensures k == i + |nal| - 1 && next[0].code.Short? && EndsInZero(nal)
  {
    hide Join;
    Layout(d, i, nal, next);
    var p := i + |nal|;
    CodeRead(d, p, next[0].code);
    assert d[p - 1] == d[i..p][|nal| - 1];
  }

  lemma NoShortCode(nal: Bytes, k: nat)
    requires CodeFree(nal) && k + 3 <= |nal|
    ensures !ShortCodeAt(nal, k)
  {}

  lemma CodeAfter(d: Bytes, i: nat, nal: Bytes, next: seq<Unit>)
    requires i <= |d| && d[i..] == nal + Join(next) && next != []
    ensures var j := i + |Seen(nal, next)|;
            && j < |d| && StartCodeLen(d, j) > 0
            && j + StartCodeLen(d, j) == i + |nal| + |CodeBytes(next[0].code)|
  {
    hide Join;
    Layout(d, i, nal, next);
    var p, c := i + |nal|, CodeBytes(next[0].code);
    CodeRead(d, p, next[0].code);
    if next[0].code.Short? && EndsInZero(nal) {
      assert d[p - 1] == d[i..p][|nal| - 1] == 0;
      assert StartCodeLen(d, p - 1) == 4;
    }
  }

  lemma CodeRead(d: Bytes, p: nat, code: StartCode)
    requires p + |CodeBytes(code)| <= |d| && d[p..p + |CodeBytes(code)|] == CodeBytes(code)
    ensures StartCodeLen(d, p) == |CodeBytes(code)|
    ensures d[p] == d[p + 1] == 0 && (d[p + 2] == 1 <==> code.Short?)
  {
    var c := CodeBytes(code);
    assert d[p] == c[0] && d[p + 1] == c[1] && d[p + 2] == c[2];
    if code.Long? { assert d[p + 3] == c[3]; }
  }

  /** Exactly what comes out of any stream whose pieces contain no start code, whatever the mix of
      code lengths and with or without a leading code. */
  lemma {:induction false} SplitOfSuffix(d: Bytes, i: nat, lead: Bytes, units: seq<Unit>)
    requires i <= |d| && d[i..] == lead + Join(units)
    requires CodeFree(lead) && AllCodeFree(units)
    ensures SplitFrom(d, i) == SeenAll(lead, units)
    decreases units
  {
    hide SplitFrom, StartCodeLen, CodeFree, Seen, NonEmpty;
    Layout(d, i, lead, units);
    var j := i + |Seen(lead, units)|;
    FirstPiece(d, i, lead, units);
    SplitFromAt(d, i, j);
    if units != [] {
      SplitOfSuffix(d, j + StartCodeLen(d, j), units[0].nal, units[1..]);
    }
  }

  lemma FirstPiece(d: Bytes, i: nat, lead: Bytes, units: seq<Unit>)
    requires i <= |d| && d[i..] == lead + Join(units) && CodeFree(lead)
    ensures var j := i + |Seen(lead, units)|;
            && j <= |d| && NoCodeIn(d, i, j) && d[i..j] == Seen(lead, units)
            && (units == [] ==> j == |d|)
            && (units != [] ==> j < |d| && StartCodeLen(d, j) > 0
                                && d[j + StartCodeLen(d, j)..] == units[0].nal + Join(units[1..]))
  {
    hide StartCodeLen, CodeFree, Join;
    var j := i + |Seen(lead, units)|;
    forall k | i <= k < j ensures StartCodeLen(d, k) == 0 {
      NoCodeBefore(d, i, lead, units, k);
    }
    Layout(d, i, lead, units);
    assert d[i..i + |lead|][..j - i] == d[i..j];
    if units != [] { CodeAfter(d, i, lead, units); }
  }

  lemma SplitOfStream(lead: Bytes, units: seq<Unit>)
    requires CodeFree(lead) && AllCodeFree(units)
    ensures Split(lead + Join(units)) == SeenAll(lead, units)
  {
    SplitOfSuffix(lead + Join(units), 0, lead, units);
  }

  /** No zero-ended piece is followed by a 3-byte code. */
  predicate Unambiguous(nal: Bytes, next: seq<Unit>)
    decreases next
  {
    next == [] || (!(next[0].code.Short? && EndsInZero(nal)) && Unambiguous(next[0].nal, next[1..]))
  }

  function TotalLen(nals: seq<Bytes>): nat {
    if nals == [] then 0 else |nals[0]| + TotalLen(nals[1..])
  }

  lemma TotalLenCons(n: Bytes, rest: seq<Bytes>)
    ensures TotalLen(NonEmpty(n) + rest) == |n| + TotalLen(rest)
  {
    if n == [] {
      assert NonEmpty(n) + rest == rest;
    } else {
      assert ([n] + rest)[1..] == rest;
    }
  }

  lemma {:induction false} SeenIsShorter(nal: Bytes, next: seq<Unit>)
    requires nal != [] && forall u :: u in next ==> u.nal != []
    ensures Unambiguous(nal, next) ==> SeenAll(nal, next) == [nal] + Nals(next)
    ensures TotalLen(SeenAll(nal, next)) <= |nal| + TotalLen(Nals(next))
    ensures !Unambiguous(nal, next) ==> TotalLen(SeenAll(nal, next)) < |nal| + TotalLen(Nals(next))
    decreases next
  {
    if next == [] {
      TotalLenCons(nal, []);
    } else {
      SeenIsShorter(next[0].nal, next[1..]);
      TotalLenCons(Seen(nal, next), SeenAll(next[0].nal, next[1..]));
      TotalLenCons(next[0].nal, Nals(next[1..]));
    }
  }

  /** A list of NALs survives joining and splitting exactly when no zero-ended NAL is followed by a
      3-byte start code. */
  lemma RecoveredExactlyWhenUnambiguous(units: seq<Unit>)
    requires AllCodeFree(units)
    requires forall u :: u in units ==> u.nal != []
    ensures Split(Join(units)) == Nals(units) <==> Unambiguous([], units)
  {
    SplitOfStream([], units);
    assert [] + Join(units) == Join(units);
    if units != [] {
      SeenIsShorter(units[0].nal, units[1..]);
      TotalLenCons(units[0].nal, Nals(units[1..]));
      assert SeenAll([], units) == SeenAll(units[0].nal, units[1..]);
    }
  }

  /** The smallest stream the splitter damages: the NAL 65 00 in front of a 3-byte code. */
  lemma ZeroBeforeShortCodeIsLost()
    ensures Split([0, 0, 0, 1, 0x65, 0, 0, 0, 1, 0x41]) == [[0x65], [0x41]]
  {
    var d: Bytes := [0, 0, 0, 1, 0x65, 0, 0, 0, 1, 0x41];
    ScanUnique(d, 0, 0);
    ScanUnique(d, 4, 5);
    ScanUnique(d, 9, 10);
    assert d[9..10] == [0x41] && d[4..5] == [0x65] && d[0..0] == [];
    assert SplitFrom(d, 9) == [[0x41]] + [];
    assert SplitFrom(d, 4) == [[0x65]] + SplitFrom(d, 9);
  }

  // ---------------------------------------------------------------- every payload is such a stream

  datatype Stream = Stream(lead: Bytes, units: seq<Unit>) {
    ghost predicate Canonical() {
      CodeFree(lead) && AllCodeFree(units) && Unambiguous(lead, units)
    }
  }

  lemma PieceIsCodeFree(d: Bytes, i: nat, j: nat)
    requires i <= j <= |d| && NoCodeIn(d, i, j)
    ensures CodeFree(d[i..j])
  {
    forall k | 0 <= k <= j - i - 3 ensures !ShortCodeAt(d[i..j], k) {
      assert StartCodeLen(d, i + k) == 0;
    }
  }

  /** At the first code after i: its bytes, and no zero in front of a 3-byte one. */
  lemma FirstCode(d: Bytes, i: nat) returns (code: StartCode)
    requires i <= |d| && Scan(d, i) < |d|
    ensures var j := Scan(d, i);
            && d[i..] == d[i..j] + (CodeBytes(code) + d[j + StartCodeLen(d, j)..])
            && !(code.Short? && EndsInZero(d[i..j]))
  {
    var j := Scan(d, i);
    var n := StartCodeLen(d, j);
    code := if n == 4 then Long else Short;
    assert d[j..] == CodeBytes(code) + d[j + n..];
    assert d[i..] == d[i..j] + d[j..];
    assert j > i ==> StartCodeLen(d, j - 1) == 0;
  }

  /** Any byte string is a lead followed by start-coded pieces, in a form the splitter sees whole. */
  lemma {:induction false} Decompose(d: Bytes, i: nat) returns (s: Stream)
    requires i <= |d|
    ensures s.Canonical() && d[i..] == s.lead + Join(s.units)
    decreases |d| - i
  {
    hide StartCodeLen, CodeFree, EndsInZero, NoCodeIn;
    var j := Scan(d, i);
    PieceIsCodeFree(d, i, j);
    if j == |d| {
      s := Stream(d[i..j], []);
      assert d[i..] == d[i..j] + [];
    } else {
      var code := FirstCode(d, i);
      var t := Decompose(d, j + StartCodeLen(d, j));
      s := Stream(d[i..j], [Unit(code, t.lead)] + t.units);
      assert s.units[1..] == t.units;
      Assoc(CodeBytes(code), t.lead, Join(t.units));
      assert Join(s.units) == CodeBytes(code) + (t.lead + Join(t.units));
    }
  }

  lemma {:induction false} SplitPieces(d: Bytes, i: nat)
    requires i <= |d|
    ensures forall n :: n in SplitFrom(d, i) ==> n != [] && CodeFree(n) && |n| <= |d|
    decreases |d| - i
  {
    hide SplitFrom, StartCodeLen, CodeFree, NoCodeIn;
    var j := Scan(d, i);
    PieceIsCodeFree(d, i, j);
    SplitFromAt(d, i, j);
    if j < |d| { SplitPieces(d, j + StartCodeLen(d, j)); }
    forall n | n in SplitFrom(d, i) ensures n != [] && CodeFree(n) && |n| <= |d| {
      if n !in SplitAfter(d, j) { assert n == d[i..j]; }
    }
  }

  /** 4-byte codes alone recover every list of code-free NALs, zero-ended or not. */
  lemma LongCodesRecoverEverything(nals: seq<Bytes>)
    requires forall n :: n in nals ==> n != [] && CodeFree(n)
    ensures Split(Join(LongUnits(nals))) == nals
  {
    AllLongIsUnambiguous([], LongUnits(nals));
    RecoveredExactlyWhenUnambiguous(LongUnits(nals));
  }

  lemma {:induction false} AllLongIsUnambiguous(nal: Bytes, units: seq<Unit>)
    requires forall u :: u in units ==> u.code.Long?
    ensures Unambiguous(nal, units)
    decreases units
  {
    if units != [] { AllLongIsUnambiguous(units[0].nal, units[1..]); }
  }

  /** Splitting, rejoining with 4-byte codes and splitting again changes nothing, for any bytes. */
  lemma ResplitIsIdentity(d: Bytes)
    ensures Split(Join(LongUnits(Split(d)))) == Split(d)
  {
    SplitPieces(d, 0);
    LongCodesRecoverEverything(Split(d));
  }

  ghost predicate OnlyStartCodes(d: Bytes) {
    exists units: seq<Unit> :: (forall u :: u in units ==> u.nal == []) && d == Join(units)
  }

  lemma {:induction false} NothingSeen(nal: Bytes, next: seq<Unit>)
    requires Unambiguous(nal, next)
    ensures SeenAll(nal, next) == [] <==> nal == [] && forall u :: u in next ==> u.nal == []
    decreases next
  {
    if next != [] {
      NothingSeen(next[0].nal, next[1..]);
      assert next == [next[0]] + next[1..];
    }
  }

  lemma {:induction false} EmptyPiecesAreUnambiguous(units: seq<Unit>)
    requires forall u :: u in units ==> u.nal == []
    ensures Unambiguous([], units)
  {
    if units != [] { EmptyPiecesAreUnambiguous(units[1..]); }
  }

  /** The split is empty exactly when the payload is nothing but start codes. */
  lemma SplitEmptyIff(d: Bytes)
    ensures Split(d) == [] <==> OnlyStartCodes(d)
  {
    if OnlyStartCodes(d) {
      var units: seq<Unit> :| (forall u :: u in units ==> u.nal == []) && d == Join(units);
      SplitOfStream([], units);
      assert [] + Join(units) == d;
      EmptyPiecesAreUnambiguous(units);
      NothingSeen([], units);
    }
    var s := Decompose(d, 0);
    assert d[0..] == d;
    SplitOfStream(s.lead, s.units);
    NothingSeen(s.lead, s.units);
    if Split(d) == [] {
      assert [] + Join(s.units) == d;
    }
  }

  // ---------------------------------------------------------------- length-prefixed samples

  const CODEC_H264 := 2
  const CODEC_H265 := 8
  const U32 := 0x1_0000_0000

  /** isParamSetNALU: nal[0] & 0x1F is nal[0] % 32, and (nal[0] & 0x7E) >> 1 is nal[0] % 128 / 2. */
  predicate IsParamSet(nal: Bytes, codec: int) {
    nal != [] &&
    if codec == CODEC_H264 then nal[0] % 32 == 7 || nal[0] % 32 == 8
    else if codec == CODEC_H265 then 32 <= nal[0] % 128 / 2 <= 34
    else false
  }

  function WithoutParamSets(nals: seq<Bytes>, codec: int): (r: seq<Bytes>)
    ensures forall n :: n in r ==> n in nals && !IsParamSet(n, codec)
  {
    if nals == [] then []
    else (if IsParamSet(nals[0], codec) then [] else [nals[0]]) + WithoutParamSets(nals[1..], codec)
  }

  /** A NAL unit by its header: forbidden bit, nal_ref_idc or the high bit of the layer, type, and the rest
      (section 7.3.1 of ITU-T H.264, section 7.3.1.2 of ITU-T H.265). */
  datatype Header = Header(forbidden: nat, extra: nat, kind: nat, rest: Bytes)

  predicate Fits(h: Header, codec: int) {
    h.forbidden < 2 && if codec == CODEC_H264 then h.extra < 4 && h.kind < 32 else h.extra < 2 && h.kind < 64
  }

  function Coded(h: Header, codec: int): (nal: Bytes)
    requires Fits(h, codec)
  {
    [if codec == CODEC_H264 then h.forbidden * 128 + h.extra * 32 + h.kind else h.forbidden * 128 + h.kind * 2 + h.extra] + h.rest
  }

  /** Parameter sets have types 7 and 8 in H.264, 32 to 34 in H.265; other codecs have none. */
  predicate CarriesParameters(h: Header, codec: int) {
    if codec == CODEC_H264 then h.kind in {7, 8} else codec == CODEC_H265 && h.kind in {32, 33, 34}
  }

  lemma ParamSetByHeader(h: Header, codec: int)
    requires Fits(h, codec)
    ensures IsParamSet(Coded(h, codec), codec) <==> CarriesParameters(h, codec)
  {
    var b := Coded(h, codec)[0];
    if codec == CODEC_H264 {
      assert b % 32 == h.kind;
    } else {
      assert b % 128 == h.kind * 2 + h.extra;
    }
  }

  function CodedAll(hs: seq<Header>, codec: int): (nals: seq<Bytes>)
    requires forall h :: h in hs ==> Fits(h, codec)
  {
    if hs == [] then [] else [Coded(hs[0], codec)] + CodedAll(hs[1..], codec)
  }

  function PictureHeaders(hs: seq<Header>, codec: int): (r: seq<Header>)
    ensures forall h :: h in r <==> h in hs && !CarriesParameters(h, codec)
  {
    if hs == [] then [] else (if CarriesParameters(hs[0], codec) then [] else [hs[0]]) + PictureHeaders(hs[1..], codec)
  }

  /** The filter keeps exactly the NAL units of all other types, in order. */
  lemma {:induction false} OnlyParamSetsDropped(hs: seq<Header>, codec: int)
    requires forall h :: h in hs ==> Fits(h, codec)
    ensures WithoutParamSets(CodedAll(hs, codec), codec) == CodedAll(PictureHeaders(hs, codec), codec)
  {
    if hs != [] {
      ParamSetByHeader(hs[0], codec);
      OnlyParamSetsDropped(hs[1..], codec);
      hide IsParamSet, CarriesParameters, Coded;
      var rest, kept := CodedAll(hs[1..], codec), PictureHeaders(hs[1..], codec);
      assert ([Coded(hs[0], codec)] + rest)[1..] == rest;
      assert ([hs[0]] + kept)[1..] == kept;
      assert [] + kept == kept;
    }
  }

  /** PutUint32(uint32(n)): the length is truncated to 32 bits. */
  function BigEndian32(n: nat): (b: Bytes)
    ensures |b| == 4
  {
    var m := n % U32;
    [m / 0x100_0000, m / 0x1_0000 % 256, m / 256 % 256, m % 256]
  }

  function FromBigEndian32(b: Bytes): (n: nat)
    requires |b| == 4
    ensures n < U32
  {
    var b0: int, b1: int, b2: int := b[0], b[1], b[2];
    b0 * 0x100_0000 + b1 * 0x1_0000 + b2 * 256 + b[3]
  }

  lemma LengthRoundTrip(n: nat)
    ensures FromBigEndian32(BigEndian32(n)) == n % U32
  {
    var m := n % U32;
    assert m == m / 256 * 256 + m % 256;
    assert m / 256 == m / 256 / 256 * 256 + m / 256 % 256;
    assert m / 256 / 256 == m / 0x1_0000;
    assert m / 0x1_0000 == m / 0x1_0000 / 256 * 256 + m / 0x1_0000 % 256;
    assert m / 0x1_0000 / 256 == m / 0x100_0000;
  }

  function Encode(nals: seq<Bytes>): (d: Bytes) {
    if nals == [] then [] else BigEndian32(|nals[0]|) + nals[0] + Encode(nals[1..])
  }

  /** A reader of 4-byte length-prefixed samples (ISO/IEC 14496-15); None on a short read. */
  function Decode(d: Bytes): (r: Option<seq<Bytes>>)
    decreases |d|
  {
    if d == [] then Some([])
    else if |d| < 4 then None
    else
      var n := FromBigEndian32(d[..4]);
      if |d| < 4 + n then None
      else
        match Decode(d[4 + n..])
        case None => None
        case Some(rest) => Some([d[4..4 + n]] + rest)
  }

  lemma {:induction false} DecodedLengths(d: Bytes)
    ensures Decode(d).Some? ==> forall n :: n in Decode(d).value ==> |n| < U32
    decreases |d|
  {
    if |d| >= 4 {
      var n := FromBigEndian32(d[..4]);
      if |d| >= 4 + n { DecodedLengths(d[4 + n..]); }
    }
  }

  lemma DecodeCons(header: Bytes, n: Bytes, rest: Bytes)
    requires |header| == 4 && FromBigEndian32(header) == |n|
    ensures Decode(header + n + rest) == if Decode(rest).None? then None else Some([n] + Decode(rest).value)
  {
    var d := header + n + rest;
    assert d[..4] == header;
    assert d[4..4 + |n|] == n;
    assert d[4 + |n|..] == rest;
  }

  lemma {:induction false} DecodeEncode(nals: seq<Bytes>)
    requires forall n :: n in nals ==> |n| < U32
    ensures Decode(Encode(nals)) == Some(nals)
  {
    if nals != [] {
      DecodeEncode(nals[1..]);
      assert [nals[0]] + nals[1..] == nals;
      LengthRoundTrip(|nals[0]|);
      DecodeCons(BigEndian32(|nals[0]|), nals[0], Encode(nals[1..]));
    }
  }

  /** Writing and reading back is the identity exactly when every length fits 32 bits. */
  lemma DecodeEncodeIff(nals: seq<Bytes>)
    ensures Decode(Encode(nals)) == Some(nals) <==> forall n :: n in nals ==> |n| < U32
  {
    DecodedLengths(Encode(nals));
    if forall n :: n in nals ==> |n| < U32 { DecodeEncode(nals); }
  }

  function EncodeKept(nals: seq<Bytes>, codec: int): Bytes {
    Encode(WithoutParamSets(nals, codec))
  }

  /** The bytes one NAL adds to the sample. */
  lemma EncodeStep(acc: Bytes, nals: seq<Bytes>, i: nat, codec: int)
    requires i < |nals|
    ensures acc + EncodeKept(nals[i..], codec) ==
            (if IsParamSet(nals[i], codec) then acc else acc + BigEndian32(|nals[i]|) + nals[i])
            + EncodeKept(nals[i + 1..], codec)
  {
    assert nals[i..][1..] == nals[i + 1..];
    var rest := WithoutParamSets(nals[i + 1..], codec);
    if IsParamSet(nals[i], codec) {
      assert [] + rest == rest;
    } else {
      assert ([nals[i]] + rest)[1..] == rest;
      assert Encode([nals[i]] + rest) == BigEndian32(|nals[i]|) + nals[i] + Encode(rest);
    }
  }

  function Avcc(data: Bytes, codec: int): (out: Bytes) {
    if Split(data) == [] then Encode([data]) else EncodeKept(Split(data), codec)
  }

  /** videoPayloadToAVCC. */
  method VideoPayloadToAVCC(data: Bytes, codec: int) returns (out: Bytes)
    ensures out == Avcc(data, codec)
  {
    hide SplitFrom, BigEndian32, IsParamSet;
    var nalus := SplitAnnexB(data);
    if |nalus| == 0 {
      assert [data][1..] == [];
      assert Encode([data]) == BigEndian32(|data|) + data + [];
      return BigEndian32(|data|) + data;
    }
    SplitPieces(data, 0);
    var buf: Bytes := [];
    assert nalus[0..] == nalus;
    for i := 0 to |nalus|
      invariant buf + EncodeKept(nalus[i..], codec) == EncodeKept(nalus, codec)
    {
      EncodeStep(buf, nalus, i, codec);
      if |nalus[i]| == 0 || IsParamSet(nalus[i], codec) {
        continue;
      }
      buf := buf + BigEndian32(|nalus[i]|) + nalus[i];
    }
    return buf;
  }

  /** What a sample reader sees of the output: the split NALs without parameter sets, in order,
      exactly when their lengths fit. The single-raw-NAL branch is reached only by a payload made of
      nothing but start codes, never by one that merely lacks them. */
  lemma AvccReadsBack(data: Bytes, codec: int)
    ensures var kept := if OnlyStartCodes(data) then [data] else WithoutParamSets(Split(data), codec);
            Decode(Avcc(data, codec)) == Some(kept) <==> forall n :: n in kept ==> |n| < U32
  {
    SplitEmptyIff(data);
    DecodeEncodeIff(if Split(data) == [] then [data] else WithoutParamSets(Split(data), codec));
  }

  /** A payload without any start code is one NAL: it is not mistaken for an empty split. */
  lemma RawNalIsOnePiece(d: Bytes)
    requires d != [] && CodeFree(d)
    ensures Split(d) == [d] && !OnlyStartCodes(d)
  {
    SplitOfStream(d, []);
    assert d + Join([]) == d;
    SplitEmptyIff(d);
  }
}
