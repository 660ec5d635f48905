/** The ranking reply (internal/model/ranking.go) and the ranking request
    (internal/backend/command_070_show_ranking.go). */
module Ranking {
  import opened Bytes
  import opened Wire
  import opened Reader

  datatype Row = Row(rank: Word, points: Word, username: Text, character: Text) {
    predicate Clean() { NulFree(username) && NulFree(character) }
  }

  datatype Reply = Reply(players: seq<Row>, current: Row) {
    predicate Clean() { AllClean(players) && current.Clean() }
  }

  // ----- The reply -----

  function PutRow(r: Row): seq<Byte> {
    Put32(r.rank) + (Put32(r.points) + (r.username + [0] + (r.character + [0])))
  }

  function PutRows(rows: seq<Row>): seq<Byte> {
    if rows == [] then [] else PutRow(rows[0]) + PutRows(rows[1..])
  }

  function PutReply(r: Reply): seq<Byte> {
    Put32(|r.players|) + (PutRows(r.players) + PutRow(r.current))
  }

  method RankingToBytes(ranking: Reply) returns (buf: seq<Byte>)
    ensures buf == PutReply(ranking)
  {
    buf := Put32(|ranking.players|);
    for i := 0 to |ranking.players|
      invariant buf + PutRows(ranking.players[i..]) == Put32(|ranking.players|) + PutRows(ranking.players)
    {
      var position := ranking.players[i];
      RowAppended(buf, position);
      assert ranking.players[i..][1..] == ranking.players[i + 1..];
      buf := buf + Put32(position.rank);
      buf := buf + Put32(position.points);
      buf := buf + position.username;
      buf := buf + [0];
      buf := buf + position.character;
      buf := buf + [0];
    }
    assert buf == Put32(|ranking.players|) + PutRows(ranking.players);
    RowAppended(buf, ranking.current);
    buf := buf + Put32(ranking.current.rank);
    buf := buf + Put32(ranking.current.points);
    buf := buf + ranking.current.username;
    buf := buf + [0];
    buf := buf + ranking.current.character;
    buf := buf + [0];
  }

  lemma RowAppended(b: seq<Byte>, r: Row)
    ensures b + Put32(r.rank) + Put32(r.points) + r.username + [0] + r.character + [0] == b + PutRow(r)
  {
  }

  function TakeWords(s: seq<Byte>): Taken<(Word, Word)> {
    match TakeWord(s)
    case Eof => Eof
    case Got(w, s1) =>
      match TakeWord(s1)
      case Eof => Eof
      case Got(v, rest) => Got((w, v), rest)
  }

  function TakeStrings(s: seq<Byte>): Taken<(Text, Text)> {
    match TakeString(s)
    case Eof => Eof
    case Got(t, s1) =>
      match TakeString(s1)
      case Eof => Eof
      case Got(u, rest) => Got((t, u), rest)
  }

  function TakeRow(s: seq<Byte>): Taken<Row> {
    match TakeWords(s)
    case Eof => Eof
    case Got(numbers, s1) =>
      match TakeStrings(s1)
      case Eof => Eof
      case Got(names, rest) => Got(Row(numbers.0, numbers.1, names.0, names.1), rest)
  }

  /** A row and those read after it. */
  function Chain(first: Taken<Row>, others: Taken<seq<Row>>): Taken<seq<Row>> {
    if first.Eof? || others.Eof? then Eof else Got([first.value] + others.value, others.rest)
  }

  function TakeRows(s: seq<Byte>, n: nat): (taken: Taken<seq<Row>>)
    ensures taken.Got? ==> |taken.value| == n
  {
    if n == 0 then Got([], s)
    else
      var first := TakeRow(s);
      if first.Eof? then Eof else Chain(first, TakeRows(first.rest, n - 1))
  }

  /** What the game reads: a count, that many rows, and the player's own. */
  function TakeReply(s: seq<Byte>): Taken<Reply> {
    match TakeWord(s)
    case Eof => Eof
    case Got(n, s1) =>
      match TakeRows(s1, n)
      case Eof => Eof
      case Got(rows, s2) =>
        match TakeRow(s2)
        case Eof => Eof
        case Got(row, rest) => Got(Reply(rows, row), rest)
  }

  lemma TakesWords(w: Word, v: Word, rest: seq<Byte>)
    ensures TakeWords(Put32(w) + (Put32(v) + rest)) == Got((w, v), rest)
  {
    TakesWord(w, Put32(v) + rest);
    TakesWord(v, rest);
  }

  /** A clean value is read back, and leaves the rest; one that is not clean is not. */
  predicate ReadBack<T(==)>(taken: Taken<T>, value: T, rest: seq<Byte>, clean: bool) {
    if clean then taken == Got(value, rest) else taken.Eof? || taken.value != value
  }

  lemma TakesStringsExactly(t: Text, u: Text, rest: seq<Byte>)
    ensures ReadBack(TakeStrings(t + [0] + (u + [0] + rest)), (t, u), rest, NulFree(t) && NulFree(u))
  {
    TakesStringExactly(t, u + [0] + rest);
    TakesStringExactly(u, rest);
  }

  lemma TakesRowExactly(r: Row, rest: seq<Byte>)
    ensures ReadBack(TakeRow(PutRow(r) + rest), r, rest, r.Clean())
  {
    var names := r.username + [0] + (r.character + [0] + rest);
    assert PutRow(r) + rest == Put32(r.rank) + (Put32(r.points) + names);
    TakesWords(r.rank, r.points, names);
    TakesStringsExactly(r.username, r.character, rest);
  }

  predicate AllClean(rows: seq<Row>) {
    forall i | 0 <= i < |rows| :: rows[i].Clean()
  }

  lemma ChainReadsBack(first: Taken<Row>, others: Taken<seq<Row>>, rows: seq<Row>, after: seq<Byte>,
                       rest: seq<Byte>, one: bool, more: bool)
    requires rows != [] && ReadBack(first, rows[0], after, one)
    requires one ==> ReadBack(others, rows[1..], rest, more)
    ensures ReadBack(Chain(first, others), rows, rest, one && more)
  {
    assert [rows[0]] + rows[1..] == rows;
    if first.Got? && others.Got? {
      var all := [first.value] + others.value;
      assert all[0] == first.value && all[1..] == others.value;
    }
  }

  lemma {:induction false} TakesRowsExactly(rows: seq<Row>, rest: seq<Byte>)
    ensures ReadBack(TakeRows(PutRows(rows) + rest, |rows|), rows, rest, AllClean(rows))
  {
    if rows == [] {
      assert PutRows(rows) + rest == rest;
    } else {
      var after := PutRows(rows[1..]) + rest;
      assert PutRows(rows) + rest == PutRow(rows[0]) + after;
      var first := TakeRow(PutRow(rows[0]) + after);
      TakesRowExactly(rows[0], after);
      TakesRowsExactly(rows[1..], rest);
      AllCleanUnfolds(rows);
      if first.Got? {
        var others := TakeRows(first.rest, |rows| - 1);
        ChainReadsBack(first, others, rows, after, rest, rows[0].Clean(), AllClean(rows[1..]));
      }
    }
  }

  lemma AllCleanUnfolds(rows: seq<Row>)
    requires rows != []
    ensures AllClean(rows) <==> rows[0].Clean() && AllClean(rows[1..])
  {
    if rows[0].Clean() && AllClean(rows[1..]) {
      forall i | 0 <= i < |rows| ensures rows[i].Clean() {
        if i > 0 { assert rows[i] == rows[1..][i - 1]; }
      }
    }
  }

  /** A reply is read back, to its last byte, exactly if no name has a NUL inside and
      the number of rows fits its field. */
  lemma ReplyRoundTripExactly(r: Reply)
    ensures TakeReply(PutReply(r)) == Got(r, []) <==> r.Clean() && |r.players| < 0x1_0000_0000
  {
    assert PutReply(r) + [] == PutReply(r);
    if r.Clean() && |r.players| < 0x1_0000_0000 {
      ReplyThen(r, []);
    }
    if TakeReply(PutReply(r)) == Got(r, []) {
      var s1 := PutRows(r.players) + PutRow(r.current);
      GetPut32(|r.players|);
      assert PutReply(r)[..4] == Put32(|r.players|) && PutReply(r)[4..] == s1;
      assert |r.players| == |r.players| % 0x1_0000_0000;
      TakesRowsExactly(r.players, PutRow(r.current));
      assert AllClean(r.players);
      TakesRowExactly(r.current, []);
      assert PutRow(r.current) + [] == PutRow(r.current);
    }
  }

  /** Different replies have different encodings, and neither begins the other. */
  lemma RepliesArePrefixFree(a: Reply, b: Reply, after: seq<Byte>)
    requires a.Clean() && |a.players| < 0x1_0000_0000
    requires b.Clean() && |b.players| < 0x1_0000_0000
    requires PutReply(a) + after == PutReply(b)
    ensures a == b && after == []
  {
    ReplyThen(a, after);
    ReplyThen(b, []);
    assert PutReply(b) + [] == PutReply(b);
  }

  lemma ReplyThen(r: Reply, after: seq<Byte>)
    requires r.Clean() && |r.players| < 0x1_0000_0000
    ensures TakeReply(PutReply(r) + after) == Got(r, after)
  {
    var s2 := PutRow(r.current) + after;
    assert PutReply(r) + after == Put32(|r.players|) + (PutRows(r.players) + s2);
    TakesWord(|r.players|, PutRows(r.players) + s2);
    TakesRowsExactly(r.players, s2);
    TakesRowExactly(r.current, after);
  }

  /** The bytes of the reply in internal/model/ranking_test.go:12-57, whatever the names. */
  lemma KnownReply(user1: Text, warrior: Text, current: Text, mage: Text)
    ensures var first, second := Row(1, 200, user1, warrior), Row(2, 150, current, mage);
      PutReply(Reply([first, second], second)) ==
      [2, 0, 0, 0]
      + ([1, 0, 0, 0, 200, 0, 0, 0] + user1 + [0] + warrior + [0]
         + ([2, 0, 0, 0, 150, 0, 0, 0] + current + [0] + mage + [0])
         + ([2, 0, 0, 0, 150, 0, 0, 0] + current + [0] + mage + [0]))
  {
    KnownRow(1, 200, user1, warrior);
    KnownRow(2, 150, current, mage);
    TwoRows(Row(1, 200, user1, warrior), Row(2, 150, current, mage));
  }

  lemma TwoRows(first: Row, second: Row)
    ensures PutReply(Reply([first, second], second)) ==
            [2, 0, 0, 0] + (PutRow(first) + PutRow(second) + PutRow(second))
  {
    assert [first, second][1..] == [second] && [second][1..] == [];
    assert PutRows([second]) == PutRow(second) + [] == PutRow(second);
    assert PutRows([first, second]) == PutRow(first) + PutRow(second);
    assert Put32(2) == [2, 0, 0, 0];
  }

  lemma KnownRow(rank: Byte, points: Byte, username: Text, character: Text)
    ensures PutRow(Row(rank, points, username, character)) ==
            [rank, 0, 0, 0, points, 0, 0, 0] + username + [0] + character + [0]
  {
    assert Put32(rank) == [rank, 0, 0, 0] && Put32(points) == [points, 0, 0, 0];
  }

  // ----- The request -----

  datatype Request = Request(classType: Byte, offset: Word, username: Text, character: Text)

  datatype Malformed = ClassType | Offset | Username | CharacterName

  function PutRequest(d: Request): seq<Byte> {
    [d.classType, 0, 0, 0] + (Put32(d.offset) + (d.username + [0] + (d.character + [0])))
  }

  method NewRankingRequest(d: Request) returns (buf: array<Byte>)
    ensures fresh(buf)
    ensures buf[..] == PutRequest(d)
  {
    var u, c := |d.username|, |d.character|;
    buf := new Byte[4 + 4 + u + 1 + c + 1](_ => 0);
    buf[0] := d.classType;
    CopyInto(buf, 4, Put32(d.offset));
    CopyInto(buf, 8, d.username);
    buf[8 + u] := 0;
    CopyInto(buf, 8 + u + 1, d.character);
    Filled(buf[..], d);
  }

  /** A buffer filled so holds the request. */
  lemma Filled(s: seq<Byte>, d: Request)
    requires var u, c := |d.username|, |d.character|;
      && |s| == 8 + u + 1 + c + 1
      && s[0] == d.classType && s[1] == s[2] == s[3] == 0
      && (forall i | 0 <= i < 4 :: s[4 + i] == Put32(d.offset)[i])
      && (forall i | 0 <= i < u :: s[8 + i] == d.username[i]) && s[8 + u] == 0
      && (forall i | 0 <= i < c :: s[8 + u + 1 + i] == d.character[i]) && s[8 + u + 1 + c] == 0
    ensures s == PutRequest(d)
  {
    var k := 8 + |d.username| + 1;
    assert s[..4] == [d.classType, 0, 0, 0];
    assert s[4..8] == Put32(d.offset);
    assert s[8..k] == d.username + [0];
    assert s[k..] == d.character + [0];
    Glue(s, k);
  }

  lemma Glue(s: seq<Byte>, k: nat)
    requires 8 <= k <= |s|
    ensures s == s[..4] + (s[4..8] + (s[8..k] + s[k..]))
  {
  }

  /** The class type is read as a word, of which its low byte is kept. */
  function ParseOf(s: seq<Byte>): Result<Request, Malformed> {
    match TakeWord(s)
    case Eof => Err(ClassType)
    case Got(classType, s1) =>
      match TakeWord(s1)
      case Eof => Err(Offset)
      case Got(offset, s2) =>
        match TakeString(s2)
        case Eof => Err(Username)
        case Got(username, s3) =>
          match TakeString(s3)
          case Eof => Err(CharacterName)
          case Got(character, _) => Ok(Request(classType % 0x100, offset, username, character))
  }

  method Parse(s: seq<Byte>) returns (r: Result<Request, Malformed>)
    ensures r == ParseOf(s)
  {
    var rd := new Cursor(s);
    var classType := rd.ReadUint32();
    if classType == None { return Err(ClassType); }
    var offset := rd.ReadUint32();
    if offset == None { return Err(Offset); }
    var username := rd.ReadString();
    if username == None { return Err(Username); }
    var character := rd.ReadString();
    if character == None { return Err(CharacterName); }
    rd.Close();
    r := Ok(Request(classType.value % 0x100, offset.value, username.value, character.value));
  }

  /** The bytes of a request whose offset takes two of them, as those in
      internal/backend/command_070_show_ranking_test.go:28-66, which also says what they
      are read as. */
  lemma KnownRequest(classType: Byte, low: Byte, high: Byte, user: Text, character: Text)
    ensures var request := Request(classType, low + 256 * high, user, character);
      var b := [classType, 0, 0, 0, low, high, 0, 0] + (user + [0] + (character + [0]));
      PutRequest(request) == b && (NulFree(user) && NulFree(character) ==> ParseOf(b) == Ok(request))
  {
    var request := Request(classType, low + 256 * high, user, character);
    var names := user + [0] + (character + [0]);
    LowWord(low, high);
    assert PutRequest(request) == [classType, 0, 0, 0] + ([low, high, 0, 0] + names);
    Joined([classType, 0, 0, 0], [low, high, 0, 0], names);
    RequestRoundTripExactly(request);
  }

  lemma LowWord(low: Byte, high: Byte)
    ensures Put32(low + 256 * high) == [low, high, 0, 0]
  {
  }

  lemma Joined(a: seq<Byte>, b: seq<Byte>, c: seq<Byte>)
    ensures a + (b + c) == (a + b) + c
  {
  }

  /** A request is parsed back exactly if neither name has a NUL inside. */
  lemma RequestRoundTripExactly(d: Request)
    ensures ParseOf(PutRequest(d)) == Ok(d) <==> NulFree(d.username) && NulFree(d.character)
  {
    var names := d.username + [0] + (d.character + [0] + []);
    assert Put32(d.classType) == [d.classType, 0, 0, 0];
    assert PutRequest(d) == Put32(d.classType) + (Put32(d.offset) + names);
    TakesWords(d.classType, d.offset, names);
    TakesStringsExactly(d.username, d.character, []);
    var s1 := Put32(d.offset) + names;
    TakesWord(d.classType, s1);
  }

  /** Two strings can be read exactly if there are two NULs. */
  lemma TakesStringsIff(s: seq<Byte>)
    ensures TakeString(s).Eof? <==> NulFree(s)
    ensures TakeStrings(s).Got? <==> exists i, j :: 0 <= i < j < |s| && s[i] == 0 && s[j] == 0
  {
    var k := NulIndex(s);
    if k < |s| {
      var s1 := s[k + 1..];
      var m := NulIndex(s1);
      if m < |s1| {
        assert s[k + 1 + m] == s1[m] == 0;
      } else {
        forall i, j | 0 <= i < j < |s| ensures s[i] != 0 || s[j] != 0 {
          if i >= k { assert s[j] == s1[j - k - 1]; }
        }
      }
    }
  }

  /** Which bytes are a request, and what is missing from those that are not. */
  lemma ParsesExactly(s: seq<Byte>)
    ensures ParseOf(s) == Err(ClassType) <==> |s| < 4
    ensures ParseOf(s) == Err(Offset) <==> 4 <= |s| < 8
    ensures ParseOf(s) == Err(Username) <==> |s| >= 8 && NulFree(s[8..])
    ensures ParseOf(s).Ok? <==> exists i, j :: 8 <= i < j < |s| && s[i] == 0 && s[j] == 0
  {
    if |s| >= 8 {
      var names := s[8..];
      assert s[4..][4..] == names;
      TakesStringsIff(names);
      if i, j :| 0 <= i < j < |names| && names[i] == 0 && names[j] == 0 {
        assert s[8 + i] == 0 && s[8 + j] == 0;
      }
      if i, j :| 8 <= i < j < |s| && s[i] == 0 && s[j] == 0 {
        assert names[i - 8] == 0 && names[j - 8] == 0;
      }
    }
  }

  lemma ReprintsNames(s: seq<Byte>)
    requires TakeStrings(s).Got?
    ensures var (t, u) := TakeStrings(s).value;
      t + [0] + (u + [0]) <= s
  {
    var k := NulIndex(s);
    var s1 := s[k + 1..];
    var m := NulIndex(s1);
    FrontString(s, k);
    FrontString(s1, m);
    FrontThen(s, s[..k] + [0], s1[..m] + [0]);
  }

  lemma FrontString(s: seq<Byte>, k: nat)
    requires k < |s| && s[k] == 0
    ensures s[..k] + [0] == s[..k + 1]
  {
  }

  lemma FrontThen(s: seq<Byte>, a: seq<Byte>, b: seq<Byte>)
    requires a <= s && b <= s[|a|..]
    ensures a + b <= s
  {
  }

  /** Printing what was parsed gives back the bytes read, exactly if the three bytes
      the class type loses were zero. */
  lemma ReprintsExactly(s: seq<Byte>)
    requires ParseOf(s).Ok?
    ensures PutRequest(ParseOf(s).value) <= s <==> s[1..4] == [0, 0, 0]
  {
    var d := ParseOf(s).value;
    ReprintsNames(s[4..][4..]);
    PutGet32(s[4..][..4]);
    LowByte(s[..4]);
    var names := d.username + [0] + (d.character + [0]);
    assert s[4..] == Put32(d.offset) + s[4..][4..];
    assert Put32(d.offset) + names <= s[4..];
    ReprintsHead(s, d.classType, Put32(d.offset) + names);
  }

  lemma ReprintsHead(s: seq<Byte>, first: Byte, after: seq<Byte>)
    requires |s| >= 4 && s[0] == first && after <= s[4..]
    ensures [first, 0, 0, 0] + after <= s <==> s[1..4] == [0, 0, 0]
  {
    var printed := [first, 0, 0, 0] + after;
    if printed <= s {
      assert printed[1..4] == [0, 0, 0] && s[1..4] == printed[1..4];
    }
    if s[1..4] == [0, 0, 0] {
      assert s[1] == s[1..4][0] && s[2] == s[1..4][1] && s[3] == s[1..4][2];
      assert s[..|printed|] == printed;
    }
  }

  lemma LowByte(s: seq<Byte>)
    requires |s| == 4
    ensures Get32(s) % 0x100 == s[0]
  {
    var s0: nat, s1: nat := s[0], s[1];
    var high := Get16(s[2..]);
    assert Get32(s) == s0 + 0x100 * (s1 + 0x100 * high);
  }
}
