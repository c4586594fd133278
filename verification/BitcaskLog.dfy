/** The append-only record log of 96. bitcask/db.c: what one append leaves in the file under
    any pattern of short writes, and that the file parses back to the records written. */
module BitcaskLog {
  import opened Words
  import opened Framing
  import Crc32

  datatype Record = Record(time: Word64, key: seq<Byte>, value: seq<Byte>)

  const HEADER: nat := 20
  const LENGTH_LIMIT: nat := Pow2(32)

  /** A key or value length as the header stores it: reduced to 32 bits. */
  function PackedLength(n: nat): seq<Byte> {
    LittleEndian(FromNat(n, 32))
  }

  function Body(r: Record): seq<Byte> {
    LittleEndian(r.time) + PackedLength(|r.key|) + PackedLength(|r.value|) + r.key + r.value
  }

  /** checksum, time, key length, value length, key, value */
  function Encode(r: Record): (s: seq<Byte>)
    ensures |s| == HEADER + |r.key| + |r.value|
  {
    LittleEndian(Crc32.Crc(Body(r))) + Body(r)
  }

  // ----- reading a record back -----

  /** The number stored in four little-endian bytes. */
  function Number(s: seq<Byte>): nat {
    ToNat(Flatten(s))
  }

  /** The length of the record that starts s, as its header announces it. */
  function Announced(s: seq<Byte>): nat
    requires |s| >= HEADER
  {
    HEADER + Number(s[12..16]) + Number(s[16..20])
  }

  /** The record at the start of s, if one is there whole with a matching checksum, and the
      bytes it takes. */
  function Decode(s: seq<Byte>): Option<(Record, nat)> {
    if |s| < HEADER || |s| < Announced(s) then None
    else
      var total := Announced(s);
      var k := HEADER + Number(s[12..16]);
      if s[..4] != LittleEndian(Crc32.Crc(s[4..total])) then None
      else Some((Record(Flatten(s[4..12]), s[HEADER..k], s[k..total]), total))
  }

  predicate Fits(r: Record) {
    |r.key| < LENGTH_LIMIT && |r.value| < LENGTH_LIMIT
  }

  lemma EncodedFields(r: Record, rest: seq<Byte>)
    ensures var s := Encode(r) + rest;
      && s[..4] == LittleEndian(Crc32.Crc(Body(r)))
      && s[4..12] == LittleEndian(r.time)
      && s[12..16] == PackedLength(|r.key|)
      && s[16..20] == PackedLength(|r.value|)
      && s[20..20 + |r.key|] == r.key
      && s[20 + |r.key|..20 + |r.key| + |r.value|] == r.value
      && s[4..|Encode(r)|] == Body(r)
  {
    var s := Encode(r) + rest;
    assert s[4..|Encode(r)|] == Body(r);
    assert s[20..20 + |r.key|] == Body(r)[16..16 + |r.key|];
    assert s[20 + |r.key|..20 + |r.key| + |r.value|] == Body(r)[16 + |r.key|..];
  }

  lemma PackedLengthRead(n: nat)
    ensures Number(PackedLength(n)) == n <==> n < LENGTH_LIMIT
    ensures Number(PackedLength(n)) < LENGTH_LIMIT
  {
    FlattenLittleEndian(FromNat(n, 32));
    ToFromNat(n, 32);
    ToNatBounded(FromNat(n, 32));
  }

  /** A record reads back, whatever follows it, exactly when its lengths fit 32 bits. */
  lemma DecodeEncode(r: Record, rest: seq<Byte>)
    ensures Decode(Encode(r) + rest) == Some((r, |Encode(r)|)) <==> Fits(r)
  {
    var s := Encode(r) + rest;
    EncodedFields(r, rest);
    PackedLengthRead(|r.key|);
    PackedLengthRead(|r.value|);
    FlattenLittleEndian(r.time);
    if Fits(r) {
      assert Announced(s) == |Encode(r)|;
    }
  }

  lemma NumberPacked(s: seq<Byte>)
    requires |s| == 4
    ensures PackedLength(Number(s)) == s && Number(s) < LENGTH_LIMIT
  {
    ToNatBounded(Flatten(s));
    FromToNat(Flatten(s));
    LittleEndianFlatten(s);
  }

  /** Nothing but an encoded record decodes: the reader accepts s only when s starts with
      the encoding of what it returns. */
  lemma DecodeSound(s: seq<Byte>)
    requires Decode(s).Some?
    ensures var (r, n) := Decode(s).value;
      Fits(r) && n <= |s| && s[..n] == Encode(r)
  {
    var (r, n) := Decode(s).value;
    NumberPacked(s[12..16]);
    NumberPacked(s[16..20]);
    LittleEndianFlatten(s[4..12]);
    assert Body(r) == s[4..n] by {
      assert s[4..12] + s[12..16] + s[16..20] == s[4..20];
      assert s[4..20] + r.key + r.value == s[4..n];
    }
    assert s[..n] == s[..4] + s[4..n];
  }

  /** A record cut short is never taken for a record. */
  lemma TornRecordRejected(r: Record, n: nat)
    requires Fits(r) && n < |Encode(r)|
    ensures Decode(Encode(r)[..n]).None?
  {
    var s := Encode(r)[..n];
    if n >= HEADER {
      EncodedFields(r, []);
      assert Encode(r) + [] == Encode(r);
      assert s[12..16] == Encode(r)[12..16] && s[16..20] == Encode(r)[16..20];
      PackedLengthRead(|r.key|);
      PackedLengthRead(|r.value|);
    }
  }

  // ----- the whole log -----

  function Log(rs: seq<Record>): seq<Byte> {
    FlatMap(Encode, rs)
  }

  /** Any concatenation of records parses back to the same records, up to a tail that holds
      no whole record. */
  lemma ScanLog(rs: seq<Record>, tail: seq<Byte>)
    requires forall r :: r in rs ==> Fits(r)
    requires Decode(tail).None?
    ensures Scan(Decode, Log(rs) + tail) == (rs, tail)
  {
    forall r | r in rs ensures ReadsBack(Decode, Encode, r) {
      forall rest ensures Decode(Encode(r) + rest) == Some((r, |Encode(r)|)) {
        DecodeEncode(r, rest);
      }
    }
    ScanRecovers(Decode, Encode, rs, tail);
  }

  lemma LogAppend(rs: seq<Record>, r: Record)
    ensures Log(rs + [r]) == Log(rs) + Encode(r)
  {
    FlatMapAppend(Encode, rs, [r]);
    FlatMapOne(Encode, r);
  }

  /** After a crash in the middle of an append, a scan finds exactly the earlier records and
      leaves exactly the bytes of the torn one. */
  lemma CrashRecovery(rs: seq<Record>, r: Record, n: nat)
    requires forall q :: q in rs ==> Fits(q)
    requires Fits(r) && n < |Encode(r)|
    ensures Scan(Decode, Log(rs) + Encode(r)[..n]) == (rs, Encode(r)[..n])
  {
    TornRecordRejected(r, n);
    ScanLog(rs, Encode(r)[..n]);
  }

  lemma LogScanned(rs: seq<Record>)
    requires forall r :: r in rs ==> Fits(r)
    ensures Scan(Decode, Log(rs)) == (rs, [])
  {
    ScanLog(rs, []);
    assert Log(rs) + [] == Log(rs);
  }

  // ----- appends after a torn one -----

  /** A scan loses nothing: the records it finds, encoded, and its rest are the bytes scanned. */
  lemma LogScanSound(s: seq<Byte>)
    ensures Log(Scan(Decode, s).0) + Scan(Decode, s).1 == s
  {
    forall t | Decode(t).Some? ensures ReadsSoundly(Decode, Encode, t) {
      DecodeSound(t);
    }
    ScanSound(Decode, Encode, s);
  }

  /** A file scans to a list of records and nothing else exactly when it is their log. */
  lemma {:induction false} ScansWholeIff(file: seq<Byte>, rs: seq<Record>)
    requires forall r :: r in rs ==> Fits(r)
    ensures Scan(Decode, file) == (rs, []) <==> file == Log(rs)
  {
    LogScanSound(file);
    LogScanned(rs);
    assert Log(rs) + [] == Log(rs);
  }

  /** One write(): the bytes it was asked to write, and its result. */
  datatype Attempt = Attempt(asked: seq<Byte>, result: int)

  /** One call of bitcask_append: its record, the bytes of it that reached the file, and the writes
      it made. */
  datatype Call = Call(record: Record, reached: seq<Byte>, tries: seq<Attempt>)

  predicate IsCall(c: Call) {
    Fits(c.record) && c.reached <= Encode(c.record)
  }

  /** A call that returned a position. */
  predicate Succeeded(c: Call) {
    c.reached == Encode(c.record)
  }

  /** A call that returned -1 after leaving bytes behind. */
  predicate Torn(c: Call) {
    c.reached != [] && !Succeeded(c)
  }

  /** What a run of calls leaves in a file. */
  function Written(calls: seq<Call>): seq<Byte> {
    FlatMap(Reached, calls)
  }

  function Reached(c: Call): seq<Byte> { c.reached }

  function Successes(calls: seq<Call>): (rs: seq<Record>)
    ensures forall r :: r in rs ==> exists c :: c in calls && c.record == r
  {
    if calls == [] then []
    else (if Succeeded(calls[0]) then [calls[0].record] else []) + Successes(calls[1..])
  }

  lemma WrittenFront(c: Call, calls: seq<Call>)
    ensures Written([c] + calls) == c.reached + Written(calls)
    ensures Log(Successes([c] + calls)) == (if Succeeded(c) then Encode(c.record) else []) + Log(Successes(calls))
  {
    var rs := Successes(calls);
    assert ([c] + calls)[1..] == calls;
    assert ([c.record] + rs)[1..] == rs;
    assert [] + rs == rs && [] + Log(rs) == Log(rs);
  }

  lemma {:induction false} WithoutTornIsLog(calls: seq<Call>)
    requires forall c :: c in calls ==> !Torn(c)
    ensures Written(calls) == Log(Successes(calls))
    decreases calls
  {
    if calls != [] {
      var c, rest := calls[0], calls[1..];
      assert c in calls && calls == [c] + rest;
      WithoutTornIsLog(rest);
      WrittenFront(c, rest);
      assert c.reached == if Succeeded(c) then Encode(c.record) else [];
    }
  }

  /** Torn calls make the file longer than its whole records. */
  lemma {:induction false} WrittenLength(calls: seq<Call>)
    ensures |Written(calls)| >= |Log(Successes(calls))|
    ensures (exists c :: c in calls && Torn(c)) ==> |Written(calls)| > |Log(Successes(calls))|
    decreases calls
  {
    if calls != [] {
      WrittenLength(calls[1..]);
      WrittenFront(calls[0], calls[1..]);
      assert calls == [calls[0]] + calls[1..];
    }
  }

  /** A failed call does not truncate the file. Over any run of calls a scan returns exactly the
      records of the calls that succeeded, with nothing left over, if and only if no call left
      a part of its record behind. */
  lemma {:induction false} AppendsReadBackIff(calls: seq<Call>)
    requires forall c :: c in calls ==> IsCall(c)
    ensures Scan(Decode, Written(calls)) == (Successes(calls), []) <==> forall c :: c in calls ==> !Torn(c)
  {
    ScansWholeIff(Written(calls), Successes(calls));
    WrittenLength(calls);
    if forall c :: c in calls ==> !Torn(c) {
      WithoutTornIsLog(calls);
    }
  }

  lemma BetweenIff(a: seq<Byte>, torn: seq<Byte>, b: seq<Byte>)
    ensures a + torn + b == a + b <==> torn == []
  {
    assert |a + torn + b| == |a + b| + |torn|;
    if torn == [] {
      assert a + torn == a;
    }
  }

  /** Bytes left between whole records keep the record after them from being read as the last. */
  lemma {:induction false} TornHidesLaterIff(rs: seq<Record>, torn: seq<Byte>, q: Record)
    requires Fits(q) && forall r :: r in rs ==> Fits(r)
    ensures Scan(Decode, Log(rs) + torn + Encode(q)) == (rs + [q], []) <==> torn == []
  {
    LogAppend(rs, q);
    ScansWholeIff(Log(rs) + torn + Encode(q), rs + [q]);
    BetweenIff(Log(rs), torn, Encode(q));
  }

  // ----- the code -----

  /** What of the whole is left to write after these writes. */
  function Left(tries: seq<Attempt>, whole: seq<Byte>): seq<Byte> {
    if tries == [] then whole
    else
      var t := tries[|tries| - 1];
      if 0 <= t.result <= |t.asked| then t.asked[t.result..] else t.asked
  }

  /** Each write asks for all that is left, as long as anything is, and another follows only one that
      landed something. */
  predicate Pursued(tries: seq<Attempt>, whole: seq<Byte>) {
    && (forall i :: 0 <= i < |tries| ==> tries[i].asked == Left(tries[..i], whole) && tries[i].asked != [])
    && (forall i :: 0 <= i < |tries| - 1 ==> tries[i].result > 0)
  }

  /** Some write landed nothing. */
  predicate Refused(tries: seq<Attempt>) {
    exists i :: 0 <= i < |tries| && tries[i].result <= 0
  }

  lemma PursuedMore(tries: seq<Attempt>, t: Attempt, whole: seq<Byte>)
    requires Pursued(tries, whole) && !Refused(tries) && t.asked == Left(tries, whole) && t.asked != []
    ensures Pursued(tries + [t], whole) && (Refused(tries + [t]) <==> t.result <= 0)
  {
    var more := tries + [t];
    forall i | 0 <= i < |more| ensures more[i].asked == Left(more[..i], whole) && more[i].asked != [] {
      assert more[..i] == tries[..i];
      if i == |tries| {
        assert tries[..i] == tries;
      }
    }
    if t.result <= 0 {
      assert more[|tries|].result <= 0;
    }
  }

  /** The bytes are what there was and the part of the whole before what is left. */
  predicate Holding(bytes: seq<Byte>, bytes0: seq<Byte>, whole: seq<Byte>, left: seq<Byte>) {
    |left| <= |whole| && left == whole[|whole| - |left|..] && bytes == bytes0 + whole[..|whole| - |left|]
  }

  lemma HoldingMore(bytes: seq<Byte>, bytes0: seq<Byte>, whole: seq<Byte>, left: seq<Byte>, n: nat)
    requires Holding(bytes, bytes0, whole, left) && n <= |left|
    ensures Holding(bytes + left[..n], bytes0, whole, left[n..])
  {
    var at := |whole| - |left|;
    assert whole[..at] + left[..n] == whole[..at + n];
    Associates(bytes0, whole[..at], left[..n]);
    assert left[n..] == whole[at + n..];
  }

  /** A file opened for appending. The operating system may accept any part of a write, or fail. */
  class File {
    var bytes: seq<Byte>
    ghost var attempts: seq<Attempt>  // every write so far

    constructor ()
      ensures bytes == [] && attempts == []
    {
      bytes, attempts := [], [];
    }

    method Write(chunk: seq<Byte>) returns (n: int)
      modifies this
      ensures -1 <= n <= |chunk|
      ensures bytes == old(bytes) + chunk[..if n < 0 then 0 else n]
      ensures attempts == old(attempts) + [Attempt(chunk, n)]
    {
      n :| -1 <= n <= |chunk|;
      bytes := bytes + chunk[..if n < 0 then 0 else n];
      attempts := attempts + [Attempt(chunk, n)];
    }
  }

  /** memcpy into a buffer. */
  method CopyInto(buf: array<Byte>, at: nat, s: seq<Byte>)
    requires at + |s| <= buf.Length
    modifies buf
    ensures buf[..] == old(buf[..at]) + s + old(buf[at + |s|..])
  {
    forall i | 0 <= i < |s| {
      buf[at + i] := s[i];
    }
  }

  /** bitcask_append:272-274: the fields between checksum and key. */
  method PackHeader(buf: array<Byte>, now: Word64, keyLen: nat, valueLen: nat)
    requires HEADER <= buf.Length
    modifies buf
    ensures buf[4..HEADER] == LittleEndian(now) + PackedLength(keyLen) + PackedLength(valueLen)
  {
    PackU64(buf, 4, now);
    assert buf[4..12] == LittleEndian(now);
    PackU32(buf, 12, FromNat(keyLen, 32));
    assert buf[4..16] == LittleEndian(now) + PackedLength(keyLen);
    PackU32(buf, 16, FromNat(valueLen, 32));
  }

  /** bitcask_append:275-276: the key and the value behind the header. */
  method CopyBody(buf: array<Byte>, key: seq<Byte>, value: seq<Byte>)
    requires buf.Length == HEADER + |key| + |value|
    modifies buf
    ensures buf[4..] == old(buf[4..HEADER]) + key + value
  {
    CopyInto(buf, HEADER, key);
    CopyInto(buf, HEADER + |key|, value);
  }

  /** The part of bitcask_append that lays the record out in memory. */
  method BuildRecord(crc: Crc32.Checksum, key: seq<Byte>, value: seq<Byte>, now: Word64) returns (buf: array<Byte>)
    requires crc.table.Length == 256
    modifies crc.table
    ensures fresh(buf) && buf[..] == Encode(Record(now, key, value))
  {
    buf := new Byte[HEADER + |key| + |value|];
    PackHeader(buf, now, |key|, |value|);
    CopyBody(buf, key, value);
    ghost var body := buf[4..];
    var sum := crc.Of(buf[4..]);
    assert buf[4..] == body;
    PackU32(buf, 0, sum);
  }

  /** The write loop of bitcask_append: it writes what is left until nothing is or a write lands
      nothing; the file gains what is not left, all of it exactly when no write was refused. */
  method WriteAll(file: File, buf: array<Byte>) returns (ok: bool, ghost tries: seq<Attempt>)
    modifies file
    ensures file.attempts == old(file.attempts) + tries && Pursued(tries, buf[..])
    ensures (ok <==> !Refused(tries)) && (ok <==> Left(tries, buf[..]) == [])
    ensures Holding(file.bytes, old(file.bytes), buf[..], Left(tries, buf[..]))
  {
    ghost var bytes0, attempts0, whole := file.bytes, file.attempts, buf[..];
    var total, written := buf.Length, 0;
    tries := [];
    while written < total
      invariant 0 <= written <= total && Left(tries, whole) == whole[written..]
      invariant Pursued(tries, whole) && !Refused(tries)
      invariant file.attempts == attempts0 + tries && Holding(file.bytes, bytes0, whole, Left(tries, whole))
    {
      assert buf[written..total] == Left(tries, whole);
      ghost var bytes := file.bytes;
      var n := file.Write(buf[written..total]);
      ghost var t := Attempt(Left(tries, whole), n);
      HoldingMore(bytes, bytes0, whole, t.asked, if n < 0 then 0 else n);
      Associates(attempts0, tries, [t]);
      PursuedMore(tries, t, whole);
      assert Left(tries + [t], whole) == if n < 0 then t.asked else t.asked[n..];
      tries := tries + [t];
      if n < 0 {
        return false, tries;
      } else if n == 0 {
        return false, tries;
      }
      written := written + n;
    }
    ok := true;
  }

  /** bitcask_append: -1 exactly when some write of this call was refused, with the record cut short
      at the end of the file; otherwise the whole record is there, and the returned position
      addresses the value. */
  method Append(file: File, crc: Crc32.Checksum, key: seq<Byte>, value: seq<Byte>, now: Word64)
    returns (result: int, ghost tries: seq<Attempt>)
    requires crc.table.Length == 256
    modifies file, crc.table
    ensures file.attempts == old(file.attempts) + tries && Pursued(tries, Encode(Record(now, key, value)))
    ensures (result == -1 <==> Refused(tries)) && (result == -1 <==> Left(tries, Encode(Record(now, key, value))) != [])
    ensures Holding(file.bytes, old(file.bytes), Encode(Record(now, key, value)), Left(tries, Encode(Record(now, key, value))))
    ensures result != -1 ==> result == |old(file.bytes)| + 20 + |key| && file.bytes[result..] == value
  {
    var valuePos := |file.bytes| + 20 + |key|;
    ghost var r, before := Record(now, key, value), file.bytes;
    var buf := BuildRecord(crc, key, value, now);
    var ok;
    ok, tries := WriteAll(file, buf);
    if !ok {
      return -1, tries;
    }
    EncodedFields(r, []);
    assert Encode(r) + [] == Encode(r) == Encode(r)[..|Encode(r)|];
    assert file.bytes[valuePos..] == Encode(r)[20 + |key|..];
    result := valuePos;
  }

  /** The call was for record r: it wrote what was left until nothing was or a write landed nothing,
      and in the latter case alone the result was -1. */
  predicate Answers(call: Call, r: Record, result: int) {
    && call.record == r && Pursued(call.tries, Encode(r))
    && Holding(call.reached, [], Encode(r), Left(call.tries, Encode(r)))
    && (result == -1 <==> Refused(call.tries)) && (result != -1 <==> Succeeded(call))
  }

  method AppendOne(file: File, crc: Crc32.Checksum, r: Record) returns (result: int, ghost call: Call)
    requires crc.table.Length == 256
    modifies file, crc.table
    ensures file.bytes == old(file.bytes) + call.reached && file.attempts == old(file.attempts) + call.tries
    ensures Answers(call, r, result)
    ensures result != -1 ==> result == |old(file.bytes)| + HEADER + |r.key|
  {
    ghost var tries;
    result, tries := Append(file, crc, r.key, r.value, r.time);
    ghost var whole := Encode(r);
    ghost var reached := whole[..|whole| - |Left(tries, whole)|];
    assert [] + reached == reached;
    assert Left(tries, whole) == [] <==> reached == whole;
    call := Call(r, reached, tries);
  }

  function Tries(c: Call): seq<Attempt> { c.tries }

  /** The bytes and the writes of one more call. */
  lemma WrittenMore(calls: seq<Call>, call: Call)
    ensures Written(calls + [call]) == Written(calls) + call.reached
    ensures FlatMap(Tries, calls + [call]) == FlatMap(Tries, calls) + call.tries
  {
    FlatMapAppend(Reached, calls, [call]);
    FlatMapOne(Reached, call);
    FlatMapAppend(Tries, calls, [call]);
    FlatMapOne(Tries, call);
  }

  /** The file after some calls: its bytes and its writes. */
  predicate Holds(bytes: seq<Byte>, attempts: seq<Attempt>, bytes0: seq<Byte>, attempts0: seq<Attempt>, calls: seq<Call>) {
    bytes == bytes0 + Written(calls) && attempts == attempts0 + FlatMap(Tries, calls)
  }

  lemma HoldsMore(bytes: seq<Byte>, attempts: seq<Attempt>, bytes0: seq<Byte>, attempts0: seq<Attempt>, calls: seq<Call>, call: Call)
    requires Holds(bytes, attempts, bytes0, attempts0, calls)
    ensures Holds(bytes + call.reached, attempts + call.tries, bytes0, attempts0, calls + [call])
  {
    WrittenMore(calls, call);
    Associates(bytes0, Written(calls), call.reached);
    Associates(attempts0, FlatMap(Tries, calls), call.tries);
  }

  /** The calls so far answer the records at the front of rs with these results. */
  predicate AllAnswer(calls: seq<Call>, rs: seq<Record>, results: seq<int>) {
    |calls| == |results| <= |rs| && forall i :: 0 <= i < |calls| ==> Answers(calls[i], rs[i], results[i])
  }

  lemma AllAnswerMore(calls: seq<Call>, rs: seq<Record>, results: seq<int>, call: Call, result: int)
    requires AllAnswer(calls, rs, results) && |calls| < |rs| && Answers(call, rs[|calls|], result)
    ensures AllAnswer(calls + [call], rs, results + [result])
  {}

  /** A run of calls of bitcask_append, each a whole record, a part of one or nothing: what the file
      holds is what `Written` says, and the results tell which calls succeeded. */
  method AppendAll(file: File, crc: Crc32.Checksum, rs: seq<Record>) returns (results: seq<int>, ghost calls: seq<Call>)
    requires crc.table.Length == 256
    modifies file, crc.table
    ensures |calls| == |rs| && AllAnswer(calls, rs, results)
    ensures file.bytes == old(file.bytes) + Written(calls)
    ensures file.attempts == old(file.attempts) + FlatMap(Tries, calls)
  {
    results, calls := [], [];
    ghost var bytes0, attempts0 := file.bytes, file.attempts;
    for i := 0 to |rs|
      invariant |calls| == i && AllAnswer(calls, rs, results)
      invariant Holds(file.bytes, file.attempts, bytes0, attempts0, calls)
    {
      ghost var call;
      var result;
      ghost var bytes1, attempts1 := file.bytes, file.attempts;
      result, call := AppendOne(file, crc, rs[i]);
      HoldsMore(bytes1, attempts1, bytes0, attempts0, calls, call);
      AllAnswerMore(calls, rs, results, call, result);
      results, calls := results + [result], calls + [call];
    }
  }

  /** So where every call of a run on an empty file returned a position, the file scans to the
      records in order, and nothing else. */
  lemma {:induction false} AllSucceededReadBack(rs: seq<Record>, calls: seq<Call>)
    requires |calls| == |rs| && forall i :: 0 <= i < |rs| ==> calls[i].record == rs[i] && Fits(rs[i])
    requires forall i :: 0 <= i < |rs| ==> Succeeded(calls[i])
    ensures Scan(Decode, Written(calls)) == (rs, [])
  {
    SuccessesAre(rs, calls);
    AppendsReadBackIff(calls);
  }

  lemma {:induction false} SuccessesAre(rs: seq<Record>, calls: seq<Call>)
    requires |calls| == |rs| && forall i :: 0 <= i < |rs| ==> calls[i].record == rs[i] && Succeeded(calls[i])
    ensures Successes(calls) == rs
    decreases rs
  {
    if rs != [] {
      assert calls[0].record == rs[0];
      SuccessesAre(rs[1..], calls[1..]);
    }
  }
}
