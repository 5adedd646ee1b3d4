/** The serialisation helpers of the save-state module. */
module Blobs {
  import opened Options
  import opened Words

  // ----- reading from the front of what is left -----

  function ReadBytes(s: seq<byte>, n: nat): Option<(seq<byte>, seq<byte>)> {
    if n > |s| then None else Some((s[..n], s[n..]))
  }

  function ReadField(s: seq<byte>, n: nat): Option<(nat, seq<byte>)> {
    var (raw, rest) :- ReadBytes(s, n);
    Some((FromLe(raw), rest))
  }

  lemma PieceRead(piece: seq<byte>, rest: seq<byte>)
    ensures ReadBytes(piece + rest, |piece|) == Some((piece, rest))
  {
  }

  // Reading at an offset.
  lemma Slice(s: seq<byte>, at: nat, n: nat)
    requires at + n <= |s|
    ensures s[at..][..n] == s[at..at + n] && s[at..][n..] == s[at + n..]
  {
  }

  lemma FieldAt(s: seq<byte>, at: nat, n: nat)
    requires at <= |s|
    ensures ReadField(s[at..], n) == if at + n <= |s| then Some((FromLe(s[at..at + n]), s[at + n..])) else None
  {
    if at + n <= |s| { Slice(s, at, n); }
  }

  lemma PieceAt(s: seq<byte>, at: nat, n: nat)
    requires at <= |s|
    ensures ReadBytes(s[at..], n) == if at + n <= |s| then Some((s[at..at + n], s[at + n..])) else None
  {
    if at + n <= |s| { Slice(s, at, n); }
  }

  lemma FieldRead(v: nat, n: nat, rest: seq<byte>)
    requires FieldFits(v, n)
    ensures ReadField(Le(v, n) + rest, n) == Some((v, rest))
  {
    PieceRead(Le(v, n), rest);
    FieldRoundTrip(v, n);
  }

  class Blob {
    var data: seq<byte>

    constructor ()
      ensures data == []
    {
      data := [];
    }

    method Write(src: seq<byte>)
      modifies this
      ensures data == old(data) + src
    {
      data := data + src;
    }

    // WriteT for an unsigned field of n bytes.
    method WriteT(v: nat, n: nat)
      modifies this
      ensures data == old(data) + Le(v, n)
    {
      Write(Le(v, n));
    }

    method WriteStr(s: seq<byte>)
      modifies this
      ensures data == old(data) + EncodeStr(s)
    {
      var len := |s| % U32;
      WriteT(len, SIZE32);
      if len > 0 { Write(s[..len]); }
    }
  }

  // The length prefix keeps 32 bits, and that many characters follow.
  function EncodeStr(s: seq<byte>): (r: seq<byte>)
    ensures |r| == 4 + |s| % U32
  {
    Le(|s| % U32, SIZE32) + s[..|s| % U32]
  }

  class BlobReader {
    const data: seq<byte>
    var offset: nat

    constructor (data: seq<byte>)
      ensures this.data == data && offset == 0 && Left() == data
    {
      this.data := data;
      offset := 0;
    }

    // What has not been read yet.
    function Left(): seq<byte>
      reads this
    {
      if offset <= |data| then data[offset..] else []
    }

    method Read(len: nat) returns (ok: bool, out: seq<byte>)
      requires offset <= |data|
      modifies this
      ensures offset <= |data|
      ensures ok <==> ReadBytes(old(Left()), len).Some?
      ensures ok ==> (out, Left()) == ReadBytes(old(Left()), len).value
      ensures !ok ==> offset == old(offset)
    {
      if offset + len > |data| { return false, []; }
      out := data[offset..offset+len];
      assert data[offset..][len..] == data[offset+len..];
      assert data[offset..][..len] == out;
      offset := offset + len;
      ok := true;
    }

    method ReadT(n: nat) returns (ok: bool, v: nat)
      requires offset <= |data|
      modifies this
      ensures offset <= |data|
      ensures ok <==> ReadField(old(Left()), n).Some?
      ensures ok ==> (v, Left()) == ReadField(old(Left()), n).value
      ensures !ok ==> offset == old(offset)
    {
      var raw;
      ok, raw := Read(n);
      v := FromLe(raw);
    }

    method ReadStr() returns (ok: bool, s: seq<byte>)
      requires offset <= |data|
      modifies this
      ensures offset <= |data|
      ensures ok <==> DecodeStr(old(Left())).Some?
      ensures ok ==> (s, Left()) == DecodeStr(old(Left())).value
    {
      var len;
      s := [];
      ok, len := ReadT(SIZE32);
      if !ok { return; }
      ok, s := Read(len);
    }
  }

  function DecodeStr(s: seq<byte>): Option<(seq<byte>, seq<byte>)> {
    var (len, rest) :- ReadField(s, SIZE32);
    ReadBytes(rest, len)
  }

  lemma StrRead(tag: seq<byte>, rest: seq<byte>)
    requires |tag| < U32
    ensures DecodeStr(EncodeStr(tag) + rest) == Some((tag, rest))
  {
    assert tag[..|tag|] == tag;
    Assoc(Le(|tag|, SIZE32), tag, rest);
    FieldRead(|tag|, SIZE32, tag + rest);
    PieceRead(tag, rest);
  }
}
