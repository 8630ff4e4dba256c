/** The body of a connect request: the password and then the keys and values of the metadata,
    each followed by a zero byte, all in one buffer of 2048 bytes. */
module ConnectPayload {
  import opened Packets

  type Text = seq<Byte>

  /** Up to the first zero byte, as C reads a string. */
  function StrLen(s: Text): (n: nat)
    ensures n <= |s|
  {
    if s == [] || s[0] == 0 then 0 else 1 + StrLen(s[1..])
  }

  ghost predicate NulFree(s: Text) {
    forall i :: 0 <= i < |s| ==> s[i] != 0
  }

  // ---- writing

  /** What one append writes, and whether it reports success. */
  datatype Appended = Appended(ok: bool, bytes: seq<Byte>)

  /** A string that fits together with its terminator is written whole. One that does not is cut
      to the room there is; but an empty string is reported as written even into no room at all. */
  function Append(src: Text, room: nat): Appended {
    var n := StrLen(src);
    if n < room then Appended(true, src[..n] + [0])
    else if room == 0 then Appended(n == 0, [])
    else Appended(false, src[..room - 1] + [0])
  }

  /** A list of strings one after the other, given up at the first failure. */
  function AppendAll(ss: seq<Text>, room: nat): Option<seq<Byte>> {
    if ss == [] then Some([])
    else
      var a := Append(ss[0], room);
      if a.ok && |a.bytes| <= room then Prepend(a.bytes, AppendAll(ss[1..], room - |a.bytes|)) else None
  }

  function Prepend(bs: seq<Byte>, rest: Option<seq<Byte>>): Option<seq<Byte>> {
    match rest
    case None => None
    case Some(more) => Some(bs + more)
  }

  lemma AppendFits(src: Text, room: nat)
    ensures |Append(src, room).bytes| <= room
    ensures Append(src, room).ok && room > 0 ==> |Append(src, room).bytes| == StrLen(src) + 1
  {
  }

  /** Keys and values of the metadata in order. */
  function Flatten(entries: seq<(Text, Text)>): (ss: seq<Text>)
    ensures |ss| == 2 * |entries|
  {
    if entries == [] then [] else [entries[0].0, entries[0].1] + Flatten(entries[1..])
  }

  /** Copies the string into the buffer at `at`, where `room` bytes are left. */
  method AppendString2(dst: array<Byte>, at: nat, room: nat, src: Text) returns (ok: bool, at': nat, room': nat)
    requires at + room <= dst.Length
    modifies dst
    ensures var a := Append(src, room);
            && ok == a.ok && |a.bytes| <= room
            && at' == at + |a.bytes| && room' == room - |a.bytes|
            && dst[..at'] == old(dst[..at]) + a.bytes
  {
    ghost var pre := dst[..at];
    var k := 0;
    ok := true;
    AppendFits(src, room);
    assert src[0..] == src;
    while k < |src| && src[k] != 0
      invariant k <= |src| && at + k <= dst.Length && (k == 0 || k <= room - 1)
      invariant StrLen(src) == k + StrLen(src[k..])
      invariant dst[..at + k] == pre + src[..k]
    {
      if k >= room - 1 {
        ok := false;
        break;
      }
      dst[at + k] := src[k];
      assert src[..k + 1] == src[..k] + [src[k]];
      k := k + 1;
    }
    if room > 0 {
      dst[at + k] := 0;
      assert dst[..at + k] == pre + src[..k];
      k := k + 1;
    }
    at', room' := at + k, room - k;
  }

  /** The whole request, or nothing if some string did not fit. */
  method SendConnectRequest(pw: Text, metaData: seq<(Text, Text)>) returns (payload: Option<seq<Byte>>)
    ensures payload == AppendAll([pw] + Flatten(metaData), BUFF_SIZE)
  {
    var dataBuffer := new Byte[BUFF_SIZE];
    assert dataBuffer[..0] == [];
    var ok, at, room := AppendString2(dataBuffer, 0, BUFF_SIZE, pw);
    var i := 0;
    FirstAppend(pw, Flatten(metaData), BUFF_SIZE);
    hide Append, Flatten, AppendAll, Prepend;
    assert dataBuffer[..at] == Append(pw, BUFF_SIZE).bytes;
    if !ok {
      return None;
    }
    assert metaData[0..] == metaData;
    while i < |metaData|
      invariant i <= |metaData| && at + room == BUFF_SIZE == dataBuffer.Length
      invariant AppendAll([pw] + Flatten(metaData), BUFF_SIZE)
             == Prepend(dataBuffer[..at], AppendAll(Flatten(metaData[i..]), room))
    {
      FlattenNext(metaData, i, dataBuffer[..at], room);
      ok, at, room := AppendString2(dataBuffer, at, room, metaData[i].0);
      if !ok {
        return None;
      }
      ok, at, room := AppendString2(dataBuffer, at, room, metaData[i].1);
      if !ok {
        return None;
      }
      i := i + 1;
    }
    NoneLeft(metaData, dataBuffer[..at], room);
    payload := Some(dataBuffer[..at]);
  }

  lemma FirstAppend(pw: Text, ss: seq<Text>, room: nat)
    ensures var a := Append(pw, room);
            |a.bytes| <= room &&
            AppendAll([pw] + ss, room) == if a.ok then Prepend(a.bytes, AppendAll(ss, room - |a.bytes|)) else None
  {
    AppendFits(pw, room);
    assert ([pw] + ss)[1..] == ss;
  }

  lemma NoneLeft(entries: seq<(Text, Text)>, pre: seq<Byte>, room: nat)
    ensures Prepend(pre, AppendAll(Flatten(entries[|entries|..]), room)) == Some(pre)
  {
    assert pre + [] == pre;
  }

  lemma FlattenNext(entries: seq<(Text, Text)>, i: nat, pre: seq<Byte>, room: nat)
    requires i < |entries|
    ensures var (key, value), rest := entries[i], Flatten(entries[i + 1..]);
            var a := Append(key, room);
            |a.bytes| <= room && var b := Append(value, room - |a.bytes|);
            |b.bytes| <= room - |a.bytes|
            && Prepend(pre, AppendAll(Flatten(entries[i..]), room))
               == if a.ok && b.ok then Prepend(pre + a.bytes + b.bytes, AppendAll(rest, room - |a.bytes| - |b.bytes|))
                   else None
  {
    var key, value, rest := entries[i].0, entries[i].1, Flatten(entries[i + 1..]);
    assert entries[i..][0] == entries[i] && entries[i..][1..] == entries[i + 1..];
    var ss := Flatten(entries[i..]);
    assert ss[0] == key && ss[1..] == [value] + rest && ([value] + rest)[1..] == rest;
    var a := Append(key, room);
    AppendFits(key, room);
    var b := Append(value, room - |a.bytes|);
    AppendFits(value, room - |a.bytes|);
    hide Append, Flatten;
    var tail := AppendAll(rest, room - |a.bytes| - |b.bytes|);
    if tail.Some? {
      Assoc(b.bytes, tail.value, []);
      Assoc(pre, a.bytes, b.bytes + tail.value);
      Assoc(pre + a.bytes, b.bytes, tail.value);
    }
  }

  // ---- reading

  /** A string off the front of the bytes, cut at a zero byte, at the end of the bytes, or at the
      size of the buffer it is read into. */
  function ReadText(bs: seq<Byte>): (s: Text)
    ensures |s| <= |bs| && |s| < BUFF_RECV_SIZE
  {
    if StrLen(bs) < BUFF_RECV_SIZE then bs[..StrLen(bs)] else bs[..BUFF_RECV_SIZE - 1]
  }

  /** std::map::insert leaves an existing entry alone. */
  function Insert(m: map<Text, Text>, key: Text, value: Text): map<Text, Text> {
    if key in m then m else m[key := value]
  }

  datatype Pair = Pair(key: Text, value: Text, rest: seq<Byte>)

  /** A key and a value off the front; a string without its terminator in the bytes fails. */
  function FirstPair(bs: seq<Byte>): (p: Option<Pair>)
    ensures p.Some? ==> |p.value.key| + |p.value.value| + 2 + |p.value.rest| == |bs|
  {
    var key := ReadText(bs);
    if |key| == |bs| then None
    else
      var rest := bs[|key| + 1..];
      var value := ReadText(rest);
      if |value| == |rest| then None else Some(Pair(key, value, rest[|value| + 1..]))
  }

  /** Pairs of strings until the bytes are used up. */
  function DecodeMap(bs: seq<Byte>, m: map<Text, Text>): Option<map<Text, Text>>
    decreases |bs|
  {
    if bs == [] then Some(m)
    else
      match FirstPair(bs)
      case None => None
      case Some(p) => DecodeMap(p.rest, Insert(m, p.key, p.value))
  }

  datatype Request = Request(password: Text, metaData: map<Text, Text>)

  function DecodeRequest(payload: seq<Byte>): Option<Request> {
    var pw := ReadText(payload);
    if |pw| == |payload| then None
    else
      match DecodeMap(payload[|pw| + 1..], map[])
      case None => None
      case Some(m) => Some(Request(pw, m))
  }

  /** Copies a string into the buffer, terminates it there, and answers how many bytes it takes. */
  method ReadString(buff: array<Byte>, buffIn: seq<Byte>) returns (res: nat)
    requires buff.Length == BUFF_RECV_SIZE
    modifies buff
    ensures res == |ReadText(buffIn)| + 1 <= buff.Length
    ensures buff[..res] == ReadText(buffIn) + [0]
  {
    var k := 0;
    assert buffIn[0..] == buffIn;
    while k < |buffIn| && buffIn[k] != 0 && k < buff.Length - 1
      invariant k <= |buffIn| && k <= buff.Length - 1
      invariant StrLen(buffIn) == k + StrLen(buffIn[k..])
      invariant buff[..k] == buffIn[..k]
    {
      buff[k] := buffIn[k];
      k := k + 1;
    }
    assert ReadText(buffIn) == buffIn[..k];
    assert buff[..k] == buffIn[..k];
    buff[k] := 0;
    assert buff[..k] == buffIn[..k];
    res := k + 1;
  }

  /** One string of the payload at `at`, and where the next begins; fails if it runs to the end. */
  method ReadAt(buff: array<Byte>, payload: seq<Byte>, at: nat) returns (ok: bool, s: Text, next: nat)
    requires buff.Length == BUFF_RECV_SIZE && at <= |payload|
    modifies buff
    ensures s == ReadText(payload[at..])
    ensures ok <==> |s| < |payload| - at
    ensures ok ==> next == at + |s| + 1 && payload[next..] == payload[at..][|s| + 1..]
  {
    var res := ReadString(buff, payload[at..]);
    s := buff[..res - 1];
    assert s == buff[..res][..res - 1];
    hide ReadText;
    ok := res <= |payload| - at;
    next := at + res;
  }

  /** Stops on every input: each string takes at least one byte. */
  method DeserializeMap(payload: seq<Byte>, offset: nat) returns (data: Option<map<Text, Text>>)
    ensures data == if offset <= |payload| then DecodeMap(payload[offset..], map[]) else None
  {
    if offset > |payload| {
      return None;
    }
    var readBytes, m := offset, map[];
    var buffer := new Byte[BUFF_RECV_SIZE];
    hide ReadText, Insert;
    while readBytes < |payload|
      invariant readBytes <= |payload|
      invariant DecodeMap(payload[readBytes..], m) == DecodeMap(payload[offset..], map[])
      decreases |payload| - readBytes
    {
      var ok, key, value, next;
      ok, key, next := ReadAt(buffer, payload, readBytes);
      if !ok {
        return None;
      }
      ok, value, next := ReadAt(buffer, payload, next);
      if !ok {
        return None;
      }
      readBytes, m := next, Insert(m, key, value);
    }
    data := Some(m);
  }

  // ---- the round trip

  /** Each string with its terminator, one after the other. */
  function Laid(ss: seq<Text>): seq<Byte> {
    if ss == [] then [] else ss[0] + [0] + Laid(ss[1..])
  }

  function Total(ss: seq<Text>): nat {
    if ss == [] then 0 else |ss[0]| + 1 + Total(ss[1..])
  }

  ghost predicate AllNulFree(ss: seq<Text>) {
    forall i :: 0 <= i < |ss| ==> NulFree(ss[i])
  }

  lemma {:induction false} StrLenFull(s: Text, after: seq<Byte>)
    requires NulFree(s)
    ensures StrLen(s) == |s| && StrLen(s + [0] + after) == |s|
  {
    if s == [] {
      assert (s + [0] + after)[0] == 0;
    } else {
      StrLenFull(s[1..], after);
      assert (s + [0] + after)[1..] == s[1..] + [0] + after;
    }
  }

  lemma {:induction false} FittingIsLaid(ss: seq<Text>, room: nat)
    requires AllNulFree(ss) && Total(ss) <= room
    ensures AppendAll(ss, room) == Some(Laid(ss))
  {
    if ss != [] {
      StrLenFull(ss[0], []);
      assert AllNulFree(ss[1..]);
      FittingIsLaid(ss[1..], room - |ss[0]| - 1);
      assert ss[0][..|ss[0]|] == ss[0];
      hide Laid;
    }
  }

  lemma ReadsFirst(s: Text, after: seq<Byte>)
    requires NulFree(s) && |s| < BUFF_RECV_SIZE
    ensures ReadText(s + [0] + after) == s && (s + [0] + after)[|s| + 1..] == after
  {
    StrLenFull(s, after);
  }

  function InsertAll(m: map<Text, Text>, entries: seq<(Text, Text)>): map<Text, Text>
    decreases |entries|
  {
    if entries == [] then m else InsertAll(Insert(m, entries[0].0, entries[0].1), entries[1..])
  }

  lemma FlattenCons(entries: seq<(Text, Text)>)
    requires entries != []
    ensures var key, value, rest := entries[0].0, entries[0].1, Flatten(entries[1..]);
            && Laid(Flatten(entries)) == key + [0] + (value + [0] + Laid(rest))
            && Total(Flatten(entries)) == |key| + 1 + |value| + 1 + Total(rest)
            && (AllNulFree(Flatten(entries)) ==> NulFree(key) && NulFree(value) && AllNulFree(rest))
  {
    var ss := Flatten(entries);
    assert ss[0] == entries[0].0 && ss[1..][0] == entries[0].1 && ss[1..][1..] == Flatten(entries[1..]);
    assert forall i :: 0 <= i < |ss| - 2 ==> Flatten(entries[1..])[i] == ss[i + 2];
  }

  lemma {:induction false} LaidDecodes(entries: seq<(Text, Text)>, m: map<Text, Text>)
    requires AllNulFree(Flatten(entries)) && Total(Flatten(entries)) <= BUFF_SIZE
    ensures DecodeMap(Laid(Flatten(entries)), m) == Some(InsertAll(m, entries))
    decreases |entries|
  {
    if entries != [] {
      var key, value, rest := entries[0].0, entries[0].1, Flatten(entries[1..]);
      FlattenCons(entries);
      ReadsFirst(key, value + [0] + Laid(rest));
      ReadsFirst(value, Laid(rest));
      LaidDecodes(entries[1..], Insert(m, key, value));
      hide Laid, Flatten, ReadText, Insert;
    }
  }

  /** The entries of a map, each key once. */
  ghost predicate Lists(entries: seq<(Text, Text)>, m: map<Text, Text>) {
    && (forall i, j :: 0 <= i < j < |entries| ==> entries[i].0 != entries[j].0)
    && (forall i :: 0 <= i < |entries| ==> entries[i].0 in m && m[entries[i].0] == entries[i].1)
    && (forall k :: k in m ==> exists i :: 0 <= i < |entries| && entries[i].0 == k)
  }

  lemma {:induction false} InsertedAre(entries: seq<(Text, Text)>, m: map<Text, Text>, k: Text)
    requires forall i, j :: 0 <= i < j < |entries| ==> entries[i].0 != entries[j].0
    requires forall i :: 0 <= i < |entries| ==> entries[i].0 !in m
    ensures var m' := InsertAll(m, entries);
            && (k in m ==> k in m' && m'[k] == m[k])
            && (k in m' ==> k in m || exists i :: 0 <= i < |entries| && entries[i].0 == k)
            && (forall i :: 0 <= i < |entries| && entries[i].0 == k ==> k in m' && m'[k] == entries[i].1)
    decreases |entries|
  {
    if entries != [] {
      var m1, rest := Insert(m, entries[0].0, entries[0].1), entries[1..];
      assert forall i :: 0 <= i < |rest| ==> rest[i] == entries[i + 1];
      InsertedAre(rest, m1, k);
      var m' := InsertAll(m1, rest);
      if k in m' && k !in m1 {
        var i :| 0 <= i < |rest| && rest[i].0 == k;
        assert entries[i + 1].0 == k;
      }
      forall i | 0 <= i < |entries| && entries[i].0 == k ensures k in m' && m'[k] == entries[i].1 {
        assert i > 0 ==> rest[i - 1] == entries[i];
      }
    }
  }

  lemma InsertAllIs(entries: seq<(Text, Text)>, m: map<Text, Text>)
    requires Lists(entries, m)
    ensures InsertAll(map[], entries) == m
  {
    var m' := InsertAll(map[], entries);
    forall k ensures (k in m' <==> k in m) && (k in m ==> m'[k] == m[k]) {
      InsertedAre(entries, map[], k);
    }
  }

  /** Whatever fits is taken by the buffer and recovered from it. */
  lemma RequestRoundTrip(pw: Text, entries: seq<(Text, Text)>, m: map<Text, Text>)
    requires Lists(entries, m) && NulFree(pw) && AllNulFree(Flatten(entries))
    requires |pw| + 1 + Total(Flatten(entries)) <= BUFF_SIZE
    ensures var payload := AppendAll([pw] + Flatten(entries), BUFF_SIZE);
            payload.Some? && DecodeRequest(payload.value) == Some(Request(pw, m))
  {
    var ss, rest := [pw] + Flatten(entries), Flatten(entries);
    assert ss[1..] == rest;
    forall i | 0 <= i < |ss| ensures NulFree(ss[i]) {
      assert i > 0 ==> ss[i] == rest[i - 1];
    }
    FittingIsLaid(ss, BUFF_SIZE);
    ReadsFirst(pw, Laid(rest));
    LaidDecodes(entries, map[]);
    hide Flatten, ReadText, InsertAll, Lists;
    InsertAllIs(entries, m);
  }

  // ---- and only what fits

  lemma {:induction false} AppendedBound(ss: seq<Text>, room: nat)
    ensures AppendAll(ss, room).Some? ==> |AppendAll(ss, room).value| <= room
  {
    if ss != [] && |Append(ss[0], room).bytes| <= room {
      AppendedBound(ss[1..], room - |Append(ss[0], room).bytes|);
    }
  }

  lemma {:induction false} DecodeExtends(bs: seq<Byte>, m: map<Text, Text>, k: Text)
    ensures DecodeMap(bs, m).Some? && k in m ==> k in DecodeMap(bs, m).value && DecodeMap(bs, m).value[k] == m[k]
    decreases |bs|
  {
    if bs != [] && FirstPair(bs).Some? {
      var p := FirstPair(bs).value;
      DecodeExtends(p.rest, Insert(m, p.key, p.value), k);
    }
  }

  function Drop(entries: seq<(Text, Text)>, i: nat): seq<(Text, Text)>
    requires i < |entries|
  {
    entries[..i] + entries[i + 1..]
  }

  function Weight(entries: seq<(Text, Text)>): nat {
    if entries == [] then 0 else |entries[0].0| + |entries[0].1| + 2 + Weight(entries[1..])
  }

  lemma {:induction false} WeightDrop(entries: seq<(Text, Text)>, i: nat)
    requires i < |entries|
    ensures Weight(entries) == Weight(Drop(entries, i)) + |entries[i].0| + |entries[i].1| + 2
  {
    if i > 0 {
      WeightDrop(entries[1..], i - 1);
      assert Drop(entries, i)[0] == entries[0] && Drop(entries, i)[1..] == Drop(entries[1..], i - 1);
    } else {
      assert Drop(entries, 0) == entries[1..];
    }
  }

  /** Distinct keys not known before, which the decoded map will hold with these values. */
  ghost predicate StillToCome(entries: seq<(Text, Text)>, m: map<Text, Text>, m': map<Text, Text>) {
    && (forall i, j :: 0 <= i < j < |entries| ==> entries[i].0 != entries[j].0)
    && (forall i :: 0 <= i < |entries| ==> entries[i].0 !in m && entries[i].0 in m' && m'[entries[i].0] == entries[i].1)
  }

  lemma StillWithout(entries: seq<(Text, Text)>, m: map<Text, Text>, m': map<Text, Text>, i: nat, value: Text)
    requires StillToCome(entries, m, m') && i < |entries|
    ensures StillToCome(Drop(entries, i), Insert(m, entries[i].0, value), m')
  {
    var es := Drop(entries, i);
    assert forall j :: 0 <= j < |es| ==> es[j] == entries[if j < i then j else j + 1];
  }

  lemma NothingStill(entries: seq<(Text, Text)>, m: map<Text, Text>)
    ensures StillToCome(entries, m, m) ==> Weight(entries) == 0
  {
    if entries != [] {
      assert entries[0].0 in m || entries[0].0 !in m;
    }
  }

  /** What is still to come out of the bytes is no heavier than the bytes. */
  lemma {:induction false} DecodedWeight(bs: seq<Byte>, m: map<Text, Text>, entries: seq<(Text, Text)>)
    requires DecodeMap(bs, m).Some? && StillToCome(entries, m, DecodeMap(bs, m).value)
    ensures Weight(entries) <= |bs|
    decreases |bs|
  {
    if bs == [] {
      NothingStill(entries, m);
    } else {
      var m', p := DecodeMap(bs, m).value, FirstPair(bs).value;
      var m1 := Insert(m, p.key, p.value);
      DecodeExtends(p.rest, m1, p.key);
      hide FirstPair, Weight;
      if i :| 0 <= i < |entries| && entries[i].0 == p.key {
        StillWithout(entries, m, m', i, p.value);
        DecodedWeight(p.rest, m1, Drop(entries, i));
        WeightDrop(entries, i);
      } else {
        assert StillToCome(entries, m1, m');
        DecodedWeight(p.rest, m1, entries);
      }
    }
  }

  lemma {:induction false} TotalIsWeight(entries: seq<(Text, Text)>)
    ensures Total(Flatten(entries)) == Weight(entries)
  {
    if entries != [] {
      TotalIsWeight(entries[1..]);
      FlattenCons(entries);
      hide Flatten;
    }
  }

  /** A request of strings without zero bytes reaches the other side as it was meant exactly when
      all of them, each with its terminator, fit the buffer. */
  lemma RequestArrivesExactlyWhen(pw: Text, entries: seq<(Text, Text)>, m: map<Text, Text>)
    requires Lists(entries, m) && NulFree(pw) && AllNulFree(Flatten(entries))
    ensures var payload := AppendAll([pw] + Flatten(entries), BUFF_SIZE);
            (payload.Some? && DecodeRequest(payload.value) == Some(Request(pw, m)))
            <==> |pw| + 1 + Total(Flatten(entries)) <= BUFF_SIZE
  {
    var payload := AppendAll([pw] + Flatten(entries), BUFF_SIZE);
    if |pw| + 1 + Total(Flatten(entries)) <= BUFF_SIZE {
      RequestRoundTrip(pw, entries, m);
    } else if payload.Some? {
      AppendedBound([pw] + Flatten(entries), BUFF_SIZE);
      hide AppendAll, Flatten, Total;
      if DecodeRequest(payload.value) == Some(Request(pw, m)) {
        RequestWeight(payload.value, pw, entries, m);
      }
    }
  }

  lemma RequestWeight(payload: seq<Byte>, pw: Text, entries: seq<(Text, Text)>, m: map<Text, Text>)
    requires Lists(entries, m) && DecodeRequest(payload) == Some(Request(pw, m))
    ensures |pw| + 1 + Total(Flatten(entries)) <= |payload|
  {
    TotalIsWeight(entries);
    hide DecodeMap, Weight, Total, Flatten;
    DecodedWeight(payload[|pw| + 1..], map[], entries);
  }

  /** A last empty string is dropped without a word when the buffer is already full: the request
      is sent, and the receiver cannot read it. */
  lemma FullBufferLosesEmptyValue(pw: Text, key: Text)
    requires NulFree(pw) && NulFree(key) && |pw| + 1 + |key| + 1 == BUFF_SIZE
    ensures var payload := AppendAll([pw] + Flatten([(key, [])]), BUFF_SIZE);
            payload.Some? && DecodeRequest(payload.value) == None
  {
    var none: Text := [];
    var entries, ss := [(key, none)], [pw] + Flatten([(key, none)]);
    assert entries[1..] == [] && ss == [pw, key, none];
    assert ss[1..] == [key, none] && [key, none][1..] == [none] && [none][1..] == [];
    StrLenFull(pw, []);
    StrLenFull(key, []);
    assert pw[..|pw|] == pw && key[..|key|] == key;
    var empty: seq<Byte> := [];
    assert empty + empty == empty && AppendAll([none], 0) == Some(empty);
    assert AppendAll([key, none], |key| + 1) == Some(key + [0] + []);
    assert AppendAll(ss, BUFF_SIZE) == Some(pw + [0] + (key + [0] + []));
    ReadsFirst(pw, key + [0] + []);
    ReadsFirst(key, []);
  }
}
