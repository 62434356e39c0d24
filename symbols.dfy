/**
 * Symbols, words and the per-byte symbol splitter.
 *
 * The tokenizer works on the UTF-8 bytes of its input.  Every byte becomes
 * one initial symbol: the byte decoded on its own, with the Unicode
 * replacement character standing in for any byte that is not valid UTF-8
 * by itself (every byte >= 128).
 */
module Symbols {

  /** One byte of UTF-8 encoded text. */
  type Byte = b: int | 0 <= b < 256

  /** A symbol: an initial one-byte fragment or a fused run of them. */
  type Symbol = string

  /** The current symbol sequence ("split") of one corpus unit. */
  type Word = seq<Symbol>

  /** Two adjacent symbols, a merge candidate. */
  type Pair = (Symbol, Symbol)

  /** The placeholder that decoding with replacement yields for an invalid byte. */
  const Replacement: char := '\U{FFFD}'

  /** A single byte decoded on its own with replacement. */
  function ByteChar(b: Byte): char
  {
    if b < 128 then b as char else Replacement
  }

  /** One symbol per byte: the initial split of a unit. */
  function Split(bytes: seq<Byte>): (w: Word)
    ensures |w| == |bytes|
  {
    seq(|bytes|, i requires 0 <= i < |bytes| => [ByteChar(bytes[i])])
  }

  /** Concatenation of a sequence of sequences ("".join for a Word). */
  function Concat<T>(xss: seq<seq<T>>): seq<T>
  {
    if xss == [] then [] else xss[0] + Concat(xss[1..])
  }

  /** The text a byte sequence reads as when each byte is decoded on its own. */
  function Rendered(bytes: seq<Byte>): (s: string)
    ensures |s| == |bytes|
  {
    seq(|bytes|, i requires 0 <= i < |bytes| => ByteChar(bytes[i]))
  }

  predicate IsAsciiText(t: string)
  {
    forall i :: 0 <= i < |t| ==> t[i] as int < 128
  }

  /** The UTF-8 encoding of an ASCII text: one byte per character. */
  function AsciiEncode(t: string): (bytes: seq<Byte>)
    requires IsAsciiText(t)
    ensures |bytes| == |t|
  {
    seq(|t|, i requires 0 <= i < |t| => t[i] as int)
  }

  lemma {:induction false} ConcatAppend<T>(a: seq<seq<T>>, b: seq<seq<T>>)
    ensures Concat(a + b) == Concat(a) + Concat(b)
  {
    if a == [] {
      assert a + b == b;
    } else {
      assert (a + b)[1..] == a[1..] + b;
      ConcatAppend(a[1..], b);
    }
  }

  lemma ConcatSingle<T>(x: seq<T>)
    ensures Concat([x]) == x
  {
    assert [x][1..] == [];
  }

  lemma SplitAppend(a: seq<Byte>, b: seq<Byte>)
    ensures Split(a + b) == Split(a) + Split(b)
  {
  }

  lemma RenderedAppend(a: seq<Byte>, b: seq<Byte>)
    ensures Rendered(a + b) == Rendered(a) + Rendered(b)
  {
  }

  /** Joining the initial split reproduces the per-byte decoding of the unit. */
  lemma {:induction false} SplitJoin(bytes: seq<Byte>)
    ensures Concat(Split(bytes)) == Rendered(bytes)
  {
    if bytes != [] {
      assert Split(bytes)[1..] == Split(bytes[1..]);
      SplitJoin(bytes[1..]);
      assert Rendered(bytes) == [ByteChar(bytes[0])] + Rendered(bytes[1..]);
    }
  }

  /** For ASCII text the byte-wise decoding is lossless: splitting the
      encoding and joining the symbols gives the text back. */
  lemma AsciiRoundTrip(t: string)
    requires IsAsciiText(t)
    ensures Concat(Split(AsciiEncode(t))) == t
    ensures Rendered(AsciiEncode(t)) == t
  {
    SplitJoin(AsciiEncode(t));
    assert Rendered(AsciiEncode(t)) == t;
  }
}
