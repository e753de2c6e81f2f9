/** UTF-8 as json.cpp checks it. A byte string is a string whose characters are below 256; everything here
    is stated for any string, and a character beyond a byte is never part of a well-formed sequence. */
module Utf8 {

  predicate In(c: char, lo: int, hi: int) {
    lo <= c as int <= hi
  }

  predicate Tail(c: char) {
    In(c, 0x80, 0xBF)
  }

  /** UTF8-char of section 4 of RFC 3629. */
  predicate Utf8Char(u: string) {
    (|u| == 1 && In(u[0], 0x00, 0x7F)) ||
    (|u| == 2 && In(u[0], 0xC2, 0xDF) && Tail(u[1])) ||
    (|u| == 3 && Tail(u[2]) &&
     ((In(u[0], 0xE0, 0xE0) && In(u[1], 0xA0, 0xBF)) || (In(u[0], 0xE1, 0xEC) && Tail(u[1])) ||
      (In(u[0], 0xED, 0xED) && In(u[1], 0x80, 0x9F)) || (In(u[0], 0xEE, 0xEF) && Tail(u[1])))) ||
    (|u| == 4 && Tail(u[2]) && Tail(u[3]) &&
     ((In(u[0], 0xF0, 0xF0) && In(u[1], 0x90, 0xBF)) || (In(u[0], 0xF1, 0xF3) && Tail(u[1])) ||
      (In(u[0], 0xF4, 0xF4) && In(u[1], 0x80, 0x8F))))
  }

  /** Length of the well-formed sequence a string starts with, 0 if there is none. */
  function SequenceLength(s: string): (n: nat)
    ensures n <= 4 && n <= |s|
    ensures n > 0 ==> Utf8Char(s[..n])
  {
    if |s| >= 1 && Utf8Char(s[..1]) then 1
    else if |s| >= 2 && Utf8Char(s[..2]) then 2
    else if |s| >= 3 && Utf8Char(s[..3]) then 3
    else if |s| >= 4 && Utf8Char(s[..4]) then 4
    else 0
  }

  /** No well-formed sequence is a proper prefix of another, so the length is the only one possible. */
  lemma SequenceLengthUnique(s: string, n: nat)
    requires n <= |s| && Utf8Char(s[..n])
    ensures SequenceLength(s) == n
  {
    assert forall k :: 0 < k <= |s| ==> s[..k][0] == s[0];
  }

  /** What follows a well-formed sequence does not matter. */
  lemma SequenceLengthOfPrefix(u: string, rest: string)
    requires Utf8Char(u)
    ensures SequenceLength(u + rest) == |u|
  {
    assert (u + rest)[..|u|] == u;
    SequenceLengthUnique(u + rest, |u|);
  }

  /** The number of bytes a lead byte announces. */
  function Announced(b: int): nat {
    if b < 0x80 then 1 else if b / 32 == 6 then 2 else if b / 16 == 14 then 3 else if b / 8 == 30 then 4 else 0
  }

  function LeadBits(b: int, n: nat): int {
    if n == 2 then b % 32 else if n == 3 then b % 16 else b % 8
  }

  /** The code point read off the first `k` bytes of an `n`-byte sequence. */
  function Bits(s: string, n: nat, k: nat): int
    requires 1 <= k <= |s|
  {
    if k == 1 then LeadBits(s[0] as int, n) else 64 * Bits(s, n, k - 1) + s[k - 1] as int % 64
  }

  /** Overlong encodings, surrogates and code points out of range. */
  predicate Rejected(n: nat, cp: int) {
    (n == 2 && cp < 0x80) || (n == 3 && cp < 0x800) || (n == 4 && cp < 0x10000) || cp > 0x10FFFF ||
    0xD800 <= cp <= 0xDFFF
  }

  /** A tail byte carries its low six bits, a lead byte what its mask leaves. */
  lemma PlainBits(s: string, n: nat, k: nat)
    requires 2 <= n <= 4 && 1 <= k <= |s| == n
    requires Announced(s[0] as int) == n && forall j :: 1 <= j < n ==> Tail(s[j])
    ensures k == 1 ==>
              Bits(s, n, k) == s[0] as int - (if n == 2 then 0xC0 else if n == 3 then 0xE0 else 0xF0)
    ensures k > 1 ==> Bits(s, n, k) == 64 * Bits(s, n, k - 1) + (s[k - 1] as int - 0x80)
  {
    if k > 1 {
      assert Tail(s[k - 1]);
    }
  }

  lemma BitsAreTheTable(s: string, n: nat)
    requires 2 <= n <= 4 && |s| == n && Announced(s[0] as int) == n && forall k :: 1 <= k < n ==> Tail(s[k])
    ensures Utf8Char(s) <==> !Rejected(n, Bits(s, n, n))
  {
    hide Bits;
    PlainBits(s, n, 1);
    PlainBits(s, n, 2);
    if n > 2 {
      PlainBits(s, n, 3);
    }
    if n > 3 {
      PlainBits(s, n, 4);
    }
  }

  lemma BitsOfPrefix(s: string, t: string, n: nat, k: nat)
    requires 1 <= k <= |t| && t <= s
    ensures Bits(s, n, k) == Bits(t, n, k)
  {
  }

  /** A well-formed sequence has the announced length. */
  lemma AnnouncedLength(u: string)
    requires Utf8Char(u)
    ensures Announced(u[0] as int) == |u| && forall k :: 1 <= k < |u| ==> Tail(u[k])
  {
  }

  lemma BitsStep(s: string, n: nat, k: nat)
    requires k < |s|
    ensures Bits(s, n, k + 1) == if k == 0 then LeadBits(s[0] as int, n) else 64 * Bits(s, n, k) + s[k] as int % 64
  {
  }

  lemma TailIs(c: char)
    ensures Tail(c) <==> c as int / 64 == 2
  {
  }

  /** `utf8_seq_len`: its masks and shifts accept exactly the table. */
  method SeqLen(s: string, i: nat) returns (n: nat)
    requires i < |s|
    ensures n == SequenceLength(s[i..])
  {
    hide Utf8Char, Rejected, SequenceLength, Bits, Tail;
    ghost var u := s[i..];
    var b := s[i] as int;
    n := 0;
    var cp := 0;
    if SequenceLength(u) > 0 {
      AnnouncedLength(u[..SequenceLength(u)]);
    }
    if b < 0x80 {
      assert Utf8Char(u[..1]) by { OneByte(u[..1]); }
      SequenceLengthUnique(u, 1);
      return 1;
    }
    if b / 32 == 6 {
      n, cp := 2, b % 32;
    } else if b / 16 == 14 {
      n, cp := 3, b % 16;
    } else if b / 8 == 30 {
      n, cp := 4, b % 8;
    } else {
      return 0;
    }
    if i + n > |s| {
      return 0;
    }
    BitsStep(u, n, 0);
    for k := 1 to n
      invariant forall j :: 1 <= j < k ==> Tail(u[j])
      invariant cp == Bits(u, n, k)
    {
      var c := s[i + k] as int;
      assert s[i + k] == u[k];
      BitsStep(u, n, k);
      TailIs(u[k]);
      if c / 64 != 2 {
        return 0;
      }
      cp := 64 * cp + c % 64;
    }
    BitsOfPrefix(u, u[..n], n, n);
    BitsAreTheTable(u[..n], n);
    if (n == 2 && cp < 0x80) || (n == 3 && cp < 0x800) || (n == 4 && cp < 0x10000) || cp > 0x10FFFF ||
       (cp >= 0xD800 && cp <= 0xDFFF) {
      assert Rejected(n, cp) by { RejectedIs(n, cp); }
      return 0;
    }
    assert !Rejected(n, cp) by { RejectedIs(n, cp); }
    SequenceLengthUnique(u, n);
  }

  lemma OneByte(u: string)
    requires |u| == 1 && u[0] as int < 0x80
    ensures Utf8Char(u)
  {
  }

  lemma RejectedIs(n: nat, cp: int)
    ensures Rejected(n, cp) <==>
            (n == 2 && cp < 0x80) || (n == 3 && cp < 0x800) || (n == 4 && cp < 0x10000) || cp > 0x10FFFF ||
            (cp >= 0xD800 && cp <= 0xDFFF)
  {
  }

  /** Every byte belongs to a well-formed sequence. */
  predicate ValidUtf8(s: string)
    decreases |s|
  {
    s == "" || (var n := SequenceLength(s); n > 0 && ValidUtf8(s[n..]))
  }

  /** Well-formed sequences can be put side by side. */
  lemma {:induction false} ValidConcat(s: string, t: string)
    requires ValidUtf8(s) && ValidUtf8(t)
    ensures ValidUtf8(s + t)
    decreases |s|
  {
    hide SequenceLength, Utf8Char;
    if s == "" {
      assert s + t == t;
    } else {
      var n := SequenceLength(s);
      ValidConcat(s[n..], t);
      assert s[..n] + (s[n..] + t) == s + t;
      SequenceLengthOfPrefix(s[..n], s[n..] + t);
      assert (s + t)[n..] == s[n..] + t;
    }
  }
}
