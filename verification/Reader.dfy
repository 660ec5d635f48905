/** The cursor over a packet's payload (internal/backend/packet/reader.go). What each
    read takes is a function of the bytes not yet read. */
module Reader {
  import opened Bytes
  import opened Wire

  /** A Go string: bytes. */
  type Text = seq<Byte>

  /** What a read takes from the front of the bytes, and what it leaves. */
  datatype Taken<+T> = Eof | Got(value: T, rest: seq<Byte>)

  /** The index of the first NUL, or the length. */
  function NulIndex(s: seq<Byte>): (k: nat)
    ensures k <= |s|
    ensures forall i | 0 <= i < k :: s[i] != 0
    ensures k < |s| ==> s[k] == 0
  {
    if s == [] || s[0] == 0 then 0 else 1 + NulIndex(s[1..])
  }

  function TakeString(s: seq<Byte>): Taken<Text> {
    var k := NulIndex(s);
    if k == |s| then Eof else Got(s[..k], s[k + 1..])
  }

  function TakeBytes(s: seq<Byte>, n: nat): Taken<seq<Byte>> {
    if n > |s| then Eof else Got(s[..n], s[n..])
  }

  function TakeWord(s: seq<Byte>): Taken<Word> {
    match TakeBytes(s, 4)
    case Eof => Eof
    case Got(b, rest) => Got(Get32(b), rest)
  }

  predicate NulFree(t: Text) {
    forall i | 0 <= i < |t| :: t[i] != 0
  }

  /** A terminated string is read back exactly if it has no NUL inside. */
  lemma TakesStringExactly(t: Text, rest: seq<Byte>)
    ensures NulFree(t) ==> TakeString(t + [0] + rest) == Got(t, rest)
    ensures !NulFree(t) ==> TakeString(t + [0] + rest).Got? && |TakeString(t + [0] + rest).value| < |t|
  {
    var s := t + [0] + rest;
    var k := NulIndex(s);
    assert s[|t|] == 0;
    if NulFree(t) {
      assert forall i | 0 <= i < |t| :: s[i] == t[i];
      assert s[..k] == t && s[k + 1..] == rest;
    } else {
      var i :| 0 <= i < |t| && t[i] == 0;
      assert s[i] == 0;
    }
  }

  lemma TakesWord(w: Word, rest: seq<Byte>)
    ensures TakeWord(Put32(w) + rest) == Got(w, rest)
  {
    GetPut32(w);
    assert (Put32(w) + rest)[..4] == Put32(w) && (Put32(w) + rest)[4..] == rest;
  }

  class Cursor {
    var cursor: nat
    var data: seq<Byte>

    predicate Valid()
      reads this
    {
      cursor <= |data|
    }

    function Rest(): seq<Byte>
      requires Valid()
      reads this
    {
      data[cursor..]
    }

    constructor (d: seq<Byte>)
      ensures Valid() && Rest() == d
    {
      cursor, data := 0, d;
    }

    /** The bytes up to the next NUL, which is skipped. */
    method ReadString() returns (r: Option<Text>)
      requires Valid()
      modifies this
      ensures Valid()
      ensures match TakeString(old(Rest()))
        case Eof => r == None && cursor == old(cursor) && data == old(data)
        case Got(text, rest) => r == Some(text) && Rest() == rest && data == old(data)
    {
      var pos := cursor;
      while pos < |data| && data[pos] != 0
        invariant cursor <= pos <= |data|
        invariant data == old(data) && cursor == old(cursor)
        invariant NulIndex(Rest()) == pos - cursor + NulIndex(data[pos..])
      {
        assert data[pos..][1..] == data[pos + 1..];
        pos := pos + 1;
      }
      if pos == |data| { return None; }
      var start := cursor;
      cursor := pos + 1;
      assert old(Rest())[..pos - start] == data[start..pos];
      r := Some(data[start..pos]);
    }

    method ReadRestBytes() returns (r: seq<Byte>)
      requires Valid()
      ensures r == Rest()
    {
      r := data[cursor..];
    }

    method ReadNBytes(n: nat) returns (r: Option<seq<Byte>>)
      requires Valid()
      modifies this
      ensures Valid()
      ensures data == old(data) && r == if n > |old(Rest())| then None else Some(old(Rest())[..n])
      ensures cursor == old(cursor) + if r == None then 0 else n
    {
      var start, end := cursor, cursor + n;
      if end > |data| { return None; }
      cursor := cursor + n;
      assert old(Rest())[..n] == data[start..end];
      r := Some(data[start..end]);
    }

    method ReadUint8() returns (r: Option<Byte>)
      requires Valid()
      modifies this
      ensures Valid() && data == old(data)
      ensures r == if old(Rest()) == [] then None else Some(old(Rest())[0])
      ensures cursor == old(cursor) + if r == None then 0 else 1
    {
      var b := ReadNBytes(1);
      r := if b == None then None else Some(b.value[0]);
    }

    method ReadUint16() returns (r: Option<nat>)
      requires Valid()
      modifies this
      ensures Valid() && data == old(data)
      ensures r == if |old(Rest())| < 2 then None else Some(Get16(old(Rest())[..2]))
      ensures cursor == old(cursor) + if r == None then 0 else 2
    {
      var b := ReadNBytes(2);
      r := if b == None then None else Some(Get16(b.value));
    }

    method ReadUint32() returns (r: Option<Word>)
      requires Valid()
      modifies this
      ensures Valid()
      ensures match TakeWord(old(Rest()))
        case Eof => r == None && cursor == old(cursor) && data == old(data)
        case Got(w, rest) => r == Some(w) && Rest() == rest && data == old(data)
    {
      var b := ReadNBytes(4);
      r := if b == None then None else Some(Get32(b.value));
    }

    method Close()
      modifies this
      ensures Valid() && cursor == 0 && data == []
    {
      cursor, data := 0, [];
    }
  }
}
