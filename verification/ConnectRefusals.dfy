/** Which answer a connect request gets, told by its bytes. */
module ConnectRefusals {
  import opened Packets
  import opened ConnectPayload
  import opened ConnectionNode

  /** The request begins with the password, and there it ends, has a zero byte, or has filled the
      buffer that the password is read into. */
  ghost predicate Gives(payload: seq<Byte>, password: Text) {
    && |password| < 3000 && password <= payload
    && (|payload| == |password| || payload[|password|] == 0 || |password| == 2999)
  }

  lemma {:induction false} StrLenAtLeast(bs: seq<Byte>, n: nat)
    requires n <= |bs| && NulFree(bs[..n])
    ensures StrLen(bs) >= n
    ensures n == |bs| || bs[n] == 0 ==> StrLen(bs) == n
  {
    if n > 0 {
      assert bs[..n][0] != 0;
      assert bs[1..][..n - 1] == bs[..n][1..];
      StrLenAtLeast(bs[1..], n - 1);
    }
  }

  lemma ReadNoNul(bs: seq<Byte>)
    ensures NulFree(ReadText(bs)) && ReadText(bs) == bs[..|ReadText(bs)|]
    ensures |ReadText(bs)| < |bs| ==> bs[|ReadText(bs)|] == 0 || |ReadText(bs)| == BUFF_RECV_SIZE - 1
  {
    BeforeNul(bs);
    TerminatedAt(bs);
  }

  lemma ReadsExactlyWhen(payload: seq<Byte>, password: Text)
    requires NulFree(password)
    ensures ReadText(payload) == password <==> Gives(payload, password)
  {
    ReadNoNul(payload);
    if Gives(payload, password) {
      assert payload[..|password|] == password;
      StrLenAtLeast(payload, |password|);
    }
  }

  // ---- the metadata

  /** A string as it lies in the request, and the byte after it, which ends it. */
  datatype Piece = Piece(text: Text, end: Byte)

  /** Without zero bytes, and ended by one, or by the size of the buffer it is read into. */
  ghost predicate Whole(p: Piece) {
    NulFree(p.text) && |p.text| < 3000 && (p.end == 0 || |p.text| == 2999)
  }

  function LaidOut(ps: seq<Piece>): seq<Byte> {
    if ps == [] then [] else ps[0].text + [ps[0].end] + LaidOut(ps[1..])
  }

  /** Keys and values in turn. */
  ghost predicate InPairs(ps: seq<Piece>) {
    |ps| % 2 == 0 && forall i :: 0 <= i < |ps| ==> Whole(ps[i])
  }

  function Pairs(ps: seq<Piece>): seq<(Text, Text)>
    requires |ps| % 2 == 0
  {
    if ps == [] then [] else [(ps[0].text, ps[1].text)] + Pairs(ps[2..])
  }

  lemma ReadsPiece(p: Piece, after: seq<Byte>)
    requires Whole(p)
    ensures var bs := p.text + [p.end] + after;
            ReadText(bs) == p.text && |p.text| < |bs| && bs[|p.text| + 1..] == after
  {
    var bs := p.text + [p.end] + after;
    assert bs[..|p.text|] == p.text;
    ReadsExactlyWhen(bs, p.text);
  }

  lemma LaidOutPair(ps: seq<Piece>)
    requires |ps| >= 2
    ensures LaidOut(ps) == ps[0].text + [ps[0].end] + (ps[1].text + [ps[1].end] + LaidOut(ps[2..]))
  {
    assert ps[1..][0] == ps[1] && ps[1..][1..] == ps[2..];
  }

  lemma {:induction false} PiecesDecode(ps: seq<Piece>, m: map<Text, Text>)
    requires InPairs(ps)
    ensures DecodeMap(LaidOut(ps), m) == Some(InsertAll(m, Pairs(ps)))
    decreases |ps|
  {
    if ps != [] {
      LaidOutPair(ps);
      ReadsPiece(ps[0], ps[1].text + [ps[1].end] + LaidOut(ps[2..]));
      ReadsPiece(ps[1], LaidOut(ps[2..]));
      PiecesDecode(ps[2..], Insert(m, ps[0].text, ps[1].text));
      var rest := Pairs(ps[2..]);
      assert ([(ps[0].text, ps[1].text)] + rest)[1..] == rest;
      hide LaidOut, ReadText, Insert, Whole;
    }
  }

  lemma CutPiece(bs: seq<Byte>) returns (p: Piece)
    requires |ReadText(bs)| < |bs|
    ensures Whole(p) && p.text == ReadText(bs) && bs == p.text + [p.end] + bs[|p.text| + 1..]
  {
    ReadNoNul(bs);
    p := Piece(ReadText(bs), bs[|ReadText(bs)|]);
    hide ReadText;
  }

  lemma CutPair(bs: seq<Byte>) returns (key: Piece, value: Piece)
    requires FirstPair(bs).Some?
    ensures var p := FirstPair(bs).value;
            && Whole(key) && Whole(value) && p.key == key.text && p.value == value.text
            && bs == key.text + [key.end] + (value.text + [value.end] + p.rest)
  {
    key := CutPiece(bs);
    value := CutPiece(bs[|key.text| + 1..]);
    hide ReadText, Whole;
  }

  lemma AddPair(key: Piece, value: Piece, more: seq<Piece>)
    requires Whole(key) && Whole(value) && InPairs(more)
    ensures var ps := [key, value] + more;
            InPairs(ps) && LaidOut(ps) == key.text + [key.end] + (value.text + [value.end] + LaidOut(more))
  {
    hide Whole;
    assert ([key, value] + more)[2..] == more;
    LaidOutPair([key, value] + more);
  }

  lemma {:induction false} DecodedPieces(bs: seq<Byte>, m: map<Text, Text>) returns (ps: seq<Piece>)
    requires DecodeMap(bs, m).Some?
    ensures InPairs(ps) && LaidOut(ps) == bs
    decreases |bs|
  {
    if bs == [] {
      ps := [];
    } else {
      var key, value := CutPair(bs);
      var p := FirstPair(bs).value;
      var more := DecodedPieces(p.rest, Insert(m, p.key, p.value));
      hide FirstPair, DecodeMap, InPairs, LaidOut;
      ps := [key, value] + more;
      AddPair(key, value, more);
    }
  }

  /** Metadata is read exactly when the bytes are strings in pairs, each one ended. */
  ghost predicate Readable(bs: seq<Byte>) {
    exists ps :: InPairs(ps) && LaidOut(ps) == bs
  }

  lemma ReadableExactlyWhen(bs: seq<Byte>)
    ensures DecodeMap(bs, map[]).Some? <==> Readable(bs)
  {
    hide DecodeMap, LaidOut, InPairs;
    if DecodeMap(bs, map[]).Some? {
      var ps := DecodedPieces(bs, map[]);
    } else if Readable(bs) {
      var ps :| InPairs(ps) && LaidOut(ps) == bs;
      PiecesDecode(ps, map[]);
    }
  }

  // ---- the answers

  /** A string up to its first zero byte. */
  function UpToNul(s: Text): Text {
    s[..StrLen(s)]
  }

  lemma UpToNulIs(s: Text)
    ensures NulFree(UpToNul(s)) && |UpToNul(s)| == StrLen(s)
  {
    BeforeNul(s);
  }

  /** Behind the password and its end lies metadata that can be read. */
  ghost predicate Legible(payload: seq<Byte>, n: nat) {
    n < |payload| && Readable(payload[n + 1..])
  }

  lemma LegibleExactlyWhen(payload: seq<Byte>, n: nat)
    ensures Legible(payload, n) <==> n < |payload| && DecodeMap(payload[n + 1..], map[]).Some?
  {
    if n < |payload| {
      ReadableExactlyWhen(payload[n + 1..]);
    }
    hide DecodeMap, Readable;
  }

  lemma JudgeCases(known: bool, count: nat, max: int, password: Text, payload: seq<Byte>, right: bool, legible: bool)
    requires right <==> ReadText(payload) == UpToNul(password)
    requires var n := |UpToNul(password)|;
             legible <==> n < |payload| && DecodeMap(payload[n + 1..], map[]).Some?
    ensures var v := Judge(known, count, max, password, payload);
            && (v.AlreadyConnected? <==> known)
            && (v.IncorrectPassword? <==> !known && !right)
            && (v.TooManyConnections? <==> !known && right && count >= max)
            && (v.Malformed? <==> !known && right && count < max && !legible)
            && (v.Accepted? <==> !known && right && count < max && legible)
  {
    hide ReadText, DecodeMap, StrLen;
    assert right ==> |ReadText(payload)| == StrLen(password);
  }

  /** Every request gets exactly one answer: the endpoint is known already, or the request does not give
      the password, or the node is full, or some string of it is not ended, or it is accepted with
      what it says. The password counts up to its first zero byte. */
  lemma AnswersExactlyWhen(known: bool, count: nat, max: int, password: Text, payload: seq<Byte>)
    ensures var v, pw := Judge(known, count, max, password, payload), UpToNul(password);
            && (v.AlreadyConnected? <==> known)
            && (v.IncorrectPassword? <==> !known && !Gives(payload, pw))
            && (v.TooManyConnections? <==> !known && Gives(payload, pw) && count >= max)
            && (v.Malformed? <==> !known && Gives(payload, pw) && count < max && !Legible(payload, |pw|))
            && (v.Accepted? <==> !known && Gives(payload, pw) && count < max && Legible(payload, |pw|))
  {
    hide *;
    var pw := UpToNul(password);
    UpToNulIs(password);
    ReadsExactlyWhen(payload, pw);
    LegibleExactlyWhen(payload, |pw|);
    JudgeCases(known, count, max, password, payload, Gives(payload, pw), Legible(payload, |pw|));
  }

  /** What is accepted is the metadata as it lies in the request; of two entries with one key the first
      counts. */
  lemma AcceptsWhatItSays(count: nat, max: int, password: Text, end: Byte, ps: seq<Piece>)
    requires Whole(Piece(password, end)) && InPairs(ps) && count < max
    ensures Judge(false, count, max, password, password + [end] + LaidOut(ps))
            == Accepted(InsertAll(map[], Pairs(ps)))
  {
    StrLenFull(password, []);
    ReadsPiece(Piece(password, end), LaidOut(ps));
    PiecesDecode(ps, map[]);
    hide ReadText, DecodeMap, InsertAll, LaidOut, StrLen;
  }

  lemma StartsWithPassword(pw: Text, ss: seq<Text>)
    requires NulFree(pw) && AppendAll([pw] + ss, BUFF_SIZE).Some?
    ensures ReadText(AppendAll([pw] + ss, BUFF_SIZE).value) == pw
  {
    FirstAppend(pw, ss, BUFF_SIZE);
    StrLenFull(pw, []);
    assert pw[..|pw|] == pw;
    var rest := AppendAll(ss, BUFF_SIZE - |pw| - 1);
    ReadsFirst(pw, rest.value);
    hide AppendAll, ReadText, StrLen;
  }

  /** A request made up with another password is told so, however full the node is. */
  lemma OtherPasswordIsRefused(count: nat, max: int, password: Text, pw: Text, entries: seq<(Text, Text)>)
    requires NulFree(password) && NulFree(pw) && pw != password
    requires AppendAll([pw] + Flatten(entries), BUFF_SIZE).Some?
    ensures Judge(false, count, max, password, AppendAll([pw] + Flatten(entries), BUFF_SIZE).value)
            == IncorrectPassword
  {
    StartsWithPassword(pw, Flatten(entries));
    StrLenFull(password, []);
    hide AppendAll, ReadText, StrLen, DecodeMap;
  }

  /** A request made up with the right password is told when the node is full. */
  lemma FullNodeRefuses(count: nat, max: int, password: Text, entries: seq<(Text, Text)>)
    requires NulFree(password) && count >= max
    requires AppendAll([password] + Flatten(entries), BUFF_SIZE).Some?
    ensures Judge(false, count, max, password, AppendAll([password] + Flatten(entries), BUFF_SIZE).value)
            == TooManyConnections
  {
    StartsWithPassword(password, Flatten(entries));
    StrLenFull(password, []);
    hide AppendAll, ReadText, StrLen, DecodeMap;
  }
}
