/** Bytes, results, and the UTF-8 syntax of section 4 of RFC 3629. */
module Bytes {

  type byte = b: int | 0 <= b < 0x100

  const NEWLINE: byte := 0x0A
  const CARRIAGE_RETURN: byte := 0x0D

  datatype Option<+T> = None | Some(value: T)

  datatype Result<+T, +E> = Ok(value: T) | Err(error: E)

  function Min(a: int, b: int): int {
    if a <= b then a else b
  }

  function Max(a: int, b: int): int {
    if a <= b then b else a
  }

  function SaturatingSub(a: nat, b: nat): nat {
    if a <= b then 0 else a - b
  }

  // ---------------------------------------------------------------- newlines

  /** Index of the first newline at or after `from`, or `|s|` when there is none. */
  function NextNewline(s: seq<byte>, from: nat): (k: nat)
    requires from <= |s|
    ensures from <= k <= |s|
    ensures forall j :: from <= j < k ==> s[j] != NEWLINE
    ensures k < |s| ==> s[k] == NEWLINE
    decreases |s| - from
  {
    if from == |s| || s[from] == NEWLINE then from else NextNewline(s, from + 1)
  }

  lemma NextNewlineUnique(s: seq<byte>, from: nat, k: nat)
    requires from <= k <= |s|
    requires forall j :: from <= j < k ==> s[j] != NEWLINE
    requires k < |s| ==> s[k] == NEWLINE
    ensures NextNewline(s, from) == k
  {
  }

  /** Splitting at newlines: one more line than there are newlines, none of which contains one. */
  function SplitLines(s: seq<byte>): (lines: seq<seq<byte>>)
    ensures |lines| > 0
    decreases |s|
  {
    var k := NextNewline(s, 0);
    if k == |s| then [s] else [s[..k]] + SplitLines(s[k + 1..])
  }

  /** Joining with newlines. */
  function JoinLines(lines: seq<seq<byte>>): seq<byte>
    requires |lines| > 0
  {
    if |lines| == 1 then lines[0] else lines[0] + [NEWLINE] + JoinLines(lines[1..])
  }

  lemma {:induction false} JoinSplit(s: seq<byte>)
    ensures JoinLines(SplitLines(s)) == s
    ensures forall i :: 0 <= i < |SplitLines(s)| ==> NEWLINE !in SplitLines(s)[i]
    decreases |s|
  {
    var k := NextNewline(s, 0);
    if k < |s| {
      JoinSplit(s[k + 1..]);
      var rest := SplitLines(s[k + 1..]);
      assert ([s[..k]] + rest)[1..] == rest;
      assert s == s[..k] + [NEWLINE] + s[k + 1..];
    }
  }
}

module Utf8 {
  import opened Bytes

  predicate IsContinuation(b: byte) {
    0x80 <= b <= 0xBF
  }

  /** Length of the well-formed character that starts `s`, or 0 when there is none. */
  function CharLength(s: seq<byte>): (n: nat)
    ensures n <= 4 && n <= |s|
    ensures n > 0 ==> !IsContinuation(s[0]) && forall i :: 0 < i < n ==> IsContinuation(s[i])
  {
    if |s| == 0 then 0
    else if s[0] <= 0x7F then 1
    else if 0xC2 <= s[0] <= 0xDF then
      if |s| >= 2 && IsContinuation(s[1]) then 2 else 0
    else if 0xE0 <= s[0] <= 0xEF then
      var low := if s[0] == 0xE0 then 0xA0 else 0x80;
      var high := if s[0] == 0xED then 0x9F else 0xBF;
      if |s| >= 3 && low <= s[1] <= high && IsContinuation(s[2]) then 3 else 0
    else if 0xF0 <= s[0] <= 0xF4 then
      var low := if s[0] == 0xF0 then 0x90 else 0x80;
      var high := if s[0] == 0xF4 then 0x8F else 0xBF;
      if |s| >= 4 && low <= s[1] <= high && IsContinuation(s[2]) && IsContinuation(s[3]) then 4 else 0
    else 0
  }

  predicate WellFormed(s: seq<byte>)
    decreases |s|
  {
    |s| == 0 || (var n := CharLength(s); n > 0 && WellFormed(s[n..]))
  }

  /** A position where a character starts, or the end. */
  predicate Boundary(s: seq<byte>, i: int) {
    0 <= i <= |s| && (i == |s| || !IsContinuation(s[i]))
  }

  lemma CharLengthLocal(s: seq<byte>, t: seq<byte>)
    requires CharLength(s) > 0
    ensures CharLength(s + t) == CharLength(s)
    ensures CharLength(s[..CharLength(s)]) == CharLength(s)
  {
  }

  /** The first character and what follows it. */
  lemma FirstChar(s: seq<byte>) returns (n: nat)
    requires WellFormed(s) && s != []
    ensures 0 < n <= |s| && n <= 4 && CharLength(s[..n]) == n && WellFormed(s[n..])
    ensures !IsContinuation(s[0]) && forall i :: 0 < i < n ==> IsContinuation(s[i])
  {
    n := CharLength(s);
    CharLengthLocal(s, []);
  }

  lemma PrependChar(c: seq<byte>, s: seq<byte>)
    requires |c| > 0 && CharLength(c) == |c| && WellFormed(s)
    ensures WellFormed(c + s)
  {
    CharLengthLocal(c, s);
    assert (c + s)[|c|..] == s;
  }

  lemma {:induction false} DropAtBoundary(s: seq<byte>, i: int)
    requires WellFormed(s) && Boundary(s, i)
    ensures WellFormed(s[i..])
    decreases |s|
  {
    hide CharLength, WellFormed, Boundary;
    BoundaryInside(s, i);
    if i == 0 {
      assert s[0..] == s;
    } else {
      var n := FirstChar(s);
      BoundaryTail(s, n, i);
      DropAtBoundary(s[n..], i - n);
      assert s[n..][i - n..] == s[i..];
    }
  }

  lemma {:induction false} TakeAtBoundary(s: seq<byte>, i: int)
    requires WellFormed(s) && Boundary(s, i)
    ensures WellFormed(s[..i])
    decreases |s|
  {
    hide CharLength, WellFormed, Boundary;
    if i == 0 {
      assert s[..i] == [];
      EmptyWellFormed();
    } else {
      BoundaryInside(s, i);
      var n := FirstChar(s);
      BoundaryTail(s, n, i);
      TakeAtBoundary(s[n..], i - n);
      PrependChar(s[..n], s[n..][..i - n]);
      assert s[..n] + s[n..][..i - n] == s[..i];
    }
  }

  lemma EmptyWellFormed()
    ensures WellFormed([])
  {
  }

  lemma BoundaryInside(s: seq<byte>, i: int)
    requires Boundary(s, i)
    ensures 0 <= i <= |s|
  {
  }

  /** Behind the first character, borders of the rest are borders of the whole. */
  lemma BoundaryTail(s: seq<byte>, n: nat, i: int)
    requires 0 < n <= |s| && (forall j :: 0 < j < n ==> IsContinuation(s[j])) && 0 < i && Boundary(s, i)
    ensures n <= i && Boundary(s[n..], i - n)
  {
  }

  /** Cutting well-formed text at a boundary leaves two well-formed pieces. */
  lemma CutAtBoundary(s: seq<byte>, i: int)
    requires WellFormed(s) && Boundary(s, i)
    ensures WellFormed(s[..i]) && WellFormed(s[i..])
  {
    hide WellFormed;
    TakeAtBoundary(s, i);
    DropAtBoundary(s, i);
  }

  /** Nothing continues a newline: the position behind it is a boundary. */
  lemma BoundaryAfterNewline(s: seq<byte>, i: int)
    requires WellFormed(s) && 0 <= i < |s| && s[i] == NEWLINE
    ensures Boundary(s, i) && Boundary(s, i + 1)
  {
    CutAtBoundary(s, i);
    assert s[i..][1..] == s[i + 1..];
    if i + 1 < |s| {
      assert WellFormed(s[i + 1..]);
    }
  }

  /** A well-formed prefix of well-formed text ends at a boundary. */
  lemma {:induction false} PrefixEndsAtBoundary(s: seq<byte>, i: int)
    requires WellFormed(s) && 0 <= i <= |s| && WellFormed(s[..i])
    ensures Boundary(s, i)
    decreases |s|
  {
    if 0 < i {
      var n := CharLength(s[..i]);
      CharLengthLocal(s[..i], s[i..]);
      assert s[..i] + s[i..] == s;
      assert s[..i][n..] == s[n..][..i - n];
      PrefixEndsAtBoundary(s[n..], i - n);
    } else if 0 < |s| {
      assert CharLength(s) > 0;
    }
  }

  /** Below every position there is a boundary at most three bytes away. */
  lemma {:induction false} BoundaryBelow(s: seq<byte>, i: int) returns (b: int)
    requires WellFormed(s) && 0 <= i <= |s|
    ensures i - 3 <= b <= i && Boundary(s, b)
    ensures forall j :: b < j <= i ==> !Boundary(s, j)
    decreases |s|
  {
    var n := CharLength(s);
    if i == |s| || i == 0 {
      b := i;
    } else if i < n {
      b := 0;
    } else {
      b := BoundaryBelow(s[n..], i - n);
      forall j | n + b < j <= i ensures !Boundary(s, j) {
        assert !Boundary(s[n..], j - n);
      }
      b := n + b;
    }
  }

  // ------------------------------------------------------- scalar values

  /** Unicode scalar values: code points that are no surrogates. */
  predicate Scalar(c: nat) {
    c < 0xD800 || 0xE000 <= c <= 0x10FFFF
  }

  function Tail(c: nat): byte {
    0x80 + c % 0x40
  }

  /** A scalar value as UTF-8, section 3 of RFC 3629. */
  function EncodeScalar(c: nat): (s: seq<byte>)
    requires Scalar(c)
    ensures 0 < |s| <= 4
  {
    if c < 0x80 then [c]
    else if c < 0x800 then [0xC0 + c / 0x40, Tail(c)]
    else if c < 0x1_0000 then [0xE0 + c / 0x40 / 0x40, Tail(c / 0x40), Tail(c)]
    else [0xF0 + c / 0x40 / 0x40 / 0x40, Tail(c / 0x40 / 0x40), Tail(c / 0x40), Tail(c)]
  }

  function EncodeAll(scalars: seq<nat>): seq<byte>
    requires forall c <- scalars :: Scalar(c)
  {
    if scalars == [] then [] else EncodeScalar(scalars[0]) + EncodeAll(scalars[1..])
  }

  lemma EncodedLength(c: nat, rest: seq<byte>)
    requires Scalar(c)
    ensures CharLength(EncodeScalar(c) + rest) == |EncodeScalar(c)|
  {
    var s := EncodeScalar(c) + rest;
    assert forall i :: 0 <= i < |EncodeScalar(c)| ==> s[i] == EncodeScalar(c)[i];
  }

  /** What a well-formed character stands for. */
  lemma CharDecodes(s: seq<byte>) returns (c: nat)
    requires CharLength(s) > 0
    ensures Scalar(c) && EncodeScalar(c) == s[..CharLength(s)]
  {
    match CharLength(s)
    case 1 => c := s[0];
    case 2 => c := Two(s);
    case 3 => c := Three(s);
    case _ => c := Four(s);
  }

  /** One more tail byte. */
  function Behind(c: int, b: int): int {
    c * 0x40 + (b - 0x80)
  }

  lemma BehindDivides(c: nat, b: byte)
    requires IsContinuation(b)
    ensures Behind(c, b) / 0x40 == c && Behind(c, b) >= 0 && Tail(Behind(c, b)) == b
  {
  }

  lemma Two(s: seq<byte>) returns (c: nat)
    requires CharLength(s) == 2
    ensures Scalar(c) && EncodeScalar(c) == s[..2]
  {
    var first: nat := s[0] as int - 0xC0;
    BehindDivides(first, s[1]);
    c := Behind(first, s[1]);
    assert 0x80 <= c < 0x800;
    hide Tail, Behind, CharLength;
    assert EncodeScalar(c) == [0xC0 + c / 0x40, Tail(c)];
  }

  lemma Three(s: seq<byte>) returns (c: nat)
    requires CharLength(s) == 3
    ensures Scalar(c) && EncodeScalar(c) == s[..3]
  {
    var first: nat := s[0] as int - 0xE0;
    BehindDivides(first, s[1]);
    var two: nat := Behind(first, s[1]);
    BehindDivides(two, s[2]);
    c := Behind(two, s[2]);
    hide Tail;
  }

  lemma Four(s: seq<byte>) returns (c: nat)
    requires CharLength(s) == 4
    ensures Scalar(c) && EncodeScalar(c) == s[..4]
  {
    var first: nat := s[0] as int - 0xF0;
    BehindDivides(first, s[1]);
    var two: nat := Behind(first, s[1]);
    BehindDivides(two, s[2]);
    var three: nat := Behind(two, s[2]);
    BehindDivides(three, s[3]);
    c := Behind(three, s[3]);
    hide Tail;
  }

  /** Well-formed text is exactly what encoding scalar values gives. */
  lemma WellFormedIsEncoded(s: seq<byte>)
    ensures WellFormed(s) <==> exists scalars: seq<nat> :: Encodes(scalars, s)
  {
    hide WellFormed, Encodes;
    if WellFormed(s) {
      var scalars := Decoded(s);
    }
    if scalars: seq<nat> :| Encodes(scalars, s) {
      EncodedIsWellFormed(scalars, s);
    }
  }

  lemma {:induction false} Decoded(s: seq<byte>) returns (scalars: seq<nat>)
    requires WellFormed(s)
    ensures Encodes(scalars, s)
    decreases |s|
  {
    hide EncodeScalar, Scalar;
    if s == [] {
      scalars := [];
    } else {
      var n := CharLength(s);
      var rest := Decoded(s[n..]);
      var c := CharDecodes(s);
      scalars := [c] + rest;
      hide CharLength;
      assert scalars[1..] == rest && s == s[..n] + s[n..];
    }
  }

  lemma {:induction false} EncodedIsWellFormed(scalars: seq<nat>, s: seq<byte>)
    requires Encodes(scalars, s)
    ensures WellFormed(s)
    decreases |scalars|
  {
    hide EncodeScalar, Scalar, CharLength;
    if scalars != [] {
      var rest := EncodeAll(scalars[1..]);
      EncodedLength(scalars[0], rest);
      assert s[|EncodeScalar(scalars[0])|..] == rest;
      EncodedIsWellFormed(scalars[1..], rest);
    }
  }

  ghost predicate Encodes(scalars: seq<nat>, s: seq<byte>) {
    (forall c <- scalars :: Scalar(c)) && s == EncodeAll(scalars)
  }
}
