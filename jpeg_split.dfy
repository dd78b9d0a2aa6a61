/** The client's frame splitter (scanJPEG, client/main.go:21-42): a bufio.Scanner split function
    that cuts a byte stream after each JPEG End-Of-Image marker, FF D9 (Table B.1 and section
    B.1.1.3 of ITU-T T.81 | ISO/IEC 10918-1). */
module JpegSplit {
  import opened Types

  /** The EOI marker, FF D9. */
  const EOI: bytes := [0xFF, 0xD9]

  predicate EoiAt(data: bytes, i: int) {
    0 <= i && i + 1 < |data| && data[i] == 0xFF && data[i + 1] == 0xD9
  }

  /** bytes.Index(data, EOI): the first position of the marker, or -1. */
  function IndexOfEoi(data: bytes): (i: int)
    ensures -1 <= i < |data|
    ensures i >= 0 ==> EoiAt(data, i)
    ensures forall j :: 0 <= j < (if i < 0 then |data| else i) ==> !EoiAt(data, j)
  {
    if |data| < 2 then -1
    else if data[0] == 0xFF && data[1] == 0xD9 then 0
    else
      var j := IndexOfEoi(data[1..]);
      assert forall k :: 1 <= k < |data| && EoiAt(data, k) ==> EoiAt(data[1..], k - 1);
      if j < 0 then -1 else j + 1
  }

  /** A split function's three results; a nil token is None. */
  datatype SplitResult = SplitResult(advance: int, token: Option<bytes>, err: Option<string>)

  /** scanJPEG (client/main.go:24-42). It keeps bufio.SplitFunc's contract: no error, an advance
      within the input, a token as long as the advance (ScanJpegContract: the bytes consumed), and
      no advance without a token. */
  function ScanJpeg(data: bytes, atEOF: bool): (r: SplitResult)
    ensures r.err.None? && 0 <= r.advance <= |data|
    ensures r.token.Some? ==> |r.token.value| == r.advance
    ensures r.token.None? ==> r.advance == 0
  {
    if atEOF && |data| == 0 then SplitResult(0, None, None)
    else
      var i := IndexOfEoi(data);
      if i >= 0 then SplitResult(i + |EOI|, Some(data[0..i + |EOI|]), None)
      else if atEOF then SplitResult(|data|, Some(data), None)
      else SplitResult(0, None, None)
  }

  /** What scanJPEG promises: it never fails and never advances past its input; with the marker
      present the token is the input up to and including its first occurrence and the advance is
      the token's length; without it, at EOF the whole rest is the token, before EOF it asks for
      more data; at EOF with nothing left it stops. */
  lemma ScanJpegContract(data: bytes, atEOF: bool)
    ensures var r := ScanJpeg(data, atEOF);
      && r.err.None?
      && 0 <= r.advance <= |data|
      && (atEOF && data == [] ==> r == SplitResult(0, None, None))
      && (forall i :: 0 <= i < |data| && EoiAt(data, i) && (forall j :: 0 <= j < i ==> !EoiAt(data, j)) ==>
            r == SplitResult(i + 2, Some(data[..i + 2]), None))
      && ((forall i :: 0 <= i < |data| ==> !EoiAt(data, i)) ==>
            r == if atEOF && data != [] then SplitResult(|data|, Some(data), None) else SplitResult(0, None, None))
  {
    var k := IndexOfEoi(data);
    if k >= 0 {
      forall i | 0 <= i < |data| && EoiAt(data, i) && (forall j :: 0 <= j < i ==> !EoiAt(data, j))
        ensures i == k
      {
      }
    }
  }

  /** A token cut at a marker ends with FF D9 and holds no earlier FF D9. */
  lemma MarkerTokenEndsAtFirstEoi(data: bytes, atEOF: bool)
    requires exists i :: EoiAt(data, i)
    ensures var r := ScanJpeg(data, atEOF);
      var t := r.token.value;
      && r.token.Some? && r.advance == |t| >= 2
      && t[|t| - 2..] == EOI
      && forall j :: 0 <= j < |t| - 2 ==> !EoiAt(t, j)
  {
    var k := IndexOfEoi(data);
    var i :| EoiAt(data, i);
    assert k >= 0;
    var t := data[..k + 2];
    forall j | 0 <= j < |t| - 2 ensures !EoiAt(t, j) {
      assert !EoiAt(data, j);
    }
  }

  /** Splitting on more data cannot change a decision already taken: if a prefix yields a token,
      any longer input yields the same token and advance, at EOF or not. */
  lemma TokenIsStableUnderMoreData(p: bytes, q: bytes, atEOF: bool)
    requires ScanJpeg(p, false).token.Some?
    ensures ScanJpeg(p + q, atEOF) == ScanJpeg(p, false)
  {
    var k := IndexOfEoi(p);
    var d := p + q;
    assert EoiAt(d, k);
    forall j | 0 <= j < k ensures !EoiAt(d, j) {
      assert !EoiAt(p, j);
    }
    var k' := IndexOfEoi(d);
    assert k' == k;
    assert d[..k + 2] == p[..k + 2];
  }

  /** The tokens the client's scanner yields when the whole stream is available (client/main.go:
      133-140): split, drop the advance, repeat until the split function stops. */
  function Tokenize(data: bytes): seq<bytes>
    decreases |data|
  {
    var r := ScanJpeg(data, true);
    if r.token.None? then []
    else if r.advance == 0 then [r.token.value] else [r.token.value] + Tokenize(data[r.advance..])
  }

  function Concat(tokens: seq<bytes>): bytes {
    if tokens == [] then [] else tokens[0] + Concat(tokens[1..])
  }

  /** Tokenize in terms of the first marker: none for no data, the whole rest when there is no
      marker, and otherwise the data up to the first marker followed by the tokens after it. */
  lemma TokenizeShape(data: bytes)
    ensures data == [] ==> Tokenize(data) == []
    ensures data != [] && IndexOfEoi(data) < 0 ==> Tokenize(data) == [data]
    ensures var k := IndexOfEoi(data);
      k >= 0 ==> Tokenize(data) == [data[..k + 2]] + Tokenize(data[k + 2..])
  {
    if data != [] && IndexOfEoi(data) < 0 {
      assert data[|data|..] == [];
      assert Tokenize(data) == [data] + Tokenize([]);
    }
  }

  /** The tokens put back together give the stream: nothing is lost or duplicated. */
  lemma {:induction false} TokenizeRoundTrip(data: bytes)
    ensures Concat(Tokenize(data)) == data
    decreases |data|
  {
    var k := IndexOfEoi(data);
    if k >= 0 {
      TokenizeRoundTrip(data[k + 2..]);
      ConcatAtMarker(data);
    } else {
      ConcatWithoutMarker(data);
    }
  }

  /** With a marker: the first token and the tokens after it put back together. */
  lemma ConcatAtMarker(data: bytes)
    requires IndexOfEoi(data) >= 0
    requires var k := IndexOfEoi(data); Concat(Tokenize(data[k + 2..])) == data[k + 2..]
    ensures Concat(Tokenize(data)) == data
  {
    var k := IndexOfEoi(data);
    var head, tail := data[..k + 2], data[k + 2..];
    TokenizeShape(data);
    ConcatSplit(Tokenize(data), head, Tokenize(tail), tail, data);
  }

  lemma ConcatSplit(tokens: seq<bytes>, head: bytes, rest: seq<bytes>, tail: bytes, data: bytes)
    requires tokens == [head] + rest && Concat(rest) == tail && data == head + tail
    ensures Concat(tokens) == data
  {
    ConcatCons(head, rest);
  }

  /** Without a marker: no token for no data, otherwise the whole data as one token. */
  lemma ConcatWithoutMarker(data: bytes)
    requires IndexOfEoi(data) < 0
    ensures Concat(Tokenize(data)) == data
  {
    TokenizeShape(data);
    if data != [] {
      ConcatCons(data, []);
    }
  }

  lemma ConcatCons(t: bytes, rest: seq<bytes>)
    ensures Concat([t] + rest) == t + Concat(rest)
  {
    assert ([t] + rest)[1..] == rest;
  }

  /** Every token but the last is a complete frame: it ends with FF D9, the first marker in it. */
  lemma {:induction false} TokensAreFrames(data: bytes, n: int)
    requires 0 <= n < |Tokenize(data)| - 1
    ensures var t := Tokenize(data)[n];
      |t| >= 2 && t[|t| - 2..] == EOI && forall j :: 0 <= j < |t| - 2 ==> !EoiAt(t, j)
    decreases |data|
  {
    TokenizeShape(data);
    var k := IndexOfEoi(data);
    if n == 0 {
      MarkerTokenEndsAtFirstEoi(data, true);
    } else {
      TokensAreFrames(data[k + 2..], n - 1);
    }
  }
}
