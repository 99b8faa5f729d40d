/**
  The DNS probe's messages (core-supervisor/src/live_signals.rs:703-715, 743-808; section 4.1 of
  RFC 1035): writing a question, and reading the addresses out of a response.

  A response is read exactly when it is the rendering of a message; the addresses are then those
  of the message's records.
 */
module DnsMessage {
  import opened Bits
  import opened Options
  import opened Wire
  import opened DnsName

  const HEADER_LEN := 12
  const CLASS_IN: u16 := 1
  const TYPE_A: u16 := 1
  const TYPE_AAAA: u16 := 28
  const RECURSION_DESIRED: u16 := 0x0100

  datatype Address = V4(octets: seq<byte>) | V6(octets: seq<byte>)

  datatype Question = Question(name: seq<byte>, typeAndClass: seq<byte>)

  datatype Record = Record(name: seq<byte>, kind: u16, class_: u16, ttl: seq<byte>, data: seq<byte>)

  // ---- Fields ----

  function U16At(b: seq<byte>, i: nat): u16
    requires i + 2 <= |b|
  {
    FromBe16(b[i], b[i + 1])
  }

  method ReadU16(b: seq<byte>, i: nat) returns (r: Option<u16>)
    ensures r == if i + 2 <= |b| then Some(U16At(b, i)) else None
  {
    var end := i + 2;
    if end > |b| {
      return None;
    }
    r := Some(FromBe16(b[i], b[end - 1]));
  }

  lemma PairSlice(b: seq<byte>, i: nat)
    requires i + 2 <= |b|
    ensures b[i..i + 2] == [b[i], b[i + 1]]
  {
  }

  lemma U16Slice(b: seq<byte>, i: nat, n: u16)
    requires i + 2 <= |b|
    ensures U16At(b, i) == n <==> b[i..i + 2] == Be16(n)
  {
    PairSlice(b, i);
    Be16Iff(b[i], b[i + 1], n);
  }

  lemma SplitSlice(b: seq<byte>, c: nat, m: nat, e: nat, x: seq<byte>, y: seq<byte>)
    requires c <= m <= e <= |b| && m == c + |x|
    ensures b[c..e] == x + y <==> b[c..m] == x && b[m..e] == y
  {
    assert b[c..e] == b[c..m] + b[m..e];
    if b[c..e] == x + y {
      assert b[c..m] == (x + y)[..|x|] && b[m..e] == (x + y)[|x|..];
    }
  }

  // ---- Questions ----

  predicate ValidQuestion(q: Question) {
    IsName(q.name) && |q.typeAndClass| == 4
  }

  function RenderQuestion(q: Question): seq<byte> {
    q.name + q.typeAndClass
  }

  function NextQuestion(b: seq<byte>, c: nat): Option<nat> {
    match Skip(b, c)
    case None => None
    case Some(e) => if e + 4 <= |b| then Some(e + 4) else None
  }

  ghost predicate IsQuestion(b: seq<byte>, c: nat, n: nat, q: Question) {
    c <= n <= |b| && ValidQuestion(q) && b[c..n] == RenderQuestion(q)
  }

  lemma QuestionRead(b: seq<byte>, c: nat, n: nat)
    ensures NextQuestion(b, c) == Some(n) <==> exists q :: IsQuestion(b, c, n, q)
  {
    if NextQuestion(b, c) == Some(n) {
      var e := Skip(b, c).value;
      SkipIffName(b, c, e);
      var q := Question(b[c..e], b[e..n]);
      assert b[c..n] == RenderQuestion(q);
      assert IsQuestion(b, c, n, q);
    }
    if q :| IsQuestion(b, c, n, q) {
      var e := c + |q.name|;
      SplitSlice(b, c, e, n, q.name, q.typeAndClass);
      SkipIffName(b, c, e);
    }
  }

  // ---- Records ----

  predicate ValidRecord(r: Record) {
    IsName(r.name) && |r.ttl| == 4 && |r.data| < TWO_16
  }

  /** What stands between the name and the data. */
  function Middle(r: Record): seq<byte> {
    Be16(r.kind) + Be16(r.class_) + r.ttl + Be16(|r.data|)
  }

  function RenderRecord(r: Record): seq<byte> {
    r.name + Middle(r) + r.data
  }

  /** The record at c and where the next one starts. */
  function ReadRecord(b: seq<byte>, c: nat): Option<(Record, nat)> {
    match Skip(b, c)
    case None => None
    case Some(e) =>
      if e + 10 > |b| then None
      else
        var next := e + 10 + U16At(b, e + 8);
        if next > |b| then None
        else Some((Record(b[c..e], U16At(b, e), U16At(b, e + 2), b[e + 4..e + 8], b[e + 10..next]), next))
  }

  ghost predicate IsRecord(b: seq<byte>, c: nat, n: nat, r: Record) {
    c <= n <= |b| && ValidRecord(r) && b[c..n] == RenderRecord(r)
  }

  lemma MiddleAt(b: seq<byte>, e: nat, r: Record)
    requires e + 10 <= |b| && |r.ttl| == 4 && |r.data| < TWO_16
    ensures b[e..e + 10] == Middle(r) <==>
            U16At(b, e) == r.kind && U16At(b, e + 2) == r.class_ && b[e + 4..e + 8] == r.ttl
              && U16At(b, e + 8) == |r.data|
  {
    U16Slice(b, e, r.kind);
    U16Slice(b, e + 2, r.class_);
    U16Slice(b, e + 8, |r.data|);
    var p, q, t, d := Be16(r.kind), Be16(r.class_), r.ttl, Be16(|r.data|);
    SplitSlice(b, e, e + 8, e + 10, p + q + t, d);
    SplitSlice(b, e, e + 4, e + 8, p + q, t);
    SplitSlice(b, e, e + 2, e + 4, p, q);
  }

  lemma RecordShape(b: seq<byte>, c: nat, n: nat, r: Record) returns (e: nat)
    requires ReadRecord(b, c) == Some((r, n))
    ensures Skip(b, c) == Some(e) && c <= e && e + 10 <= n <= |b| && n == e + 10 + |r.data| && |r.data| < TWO_16
    ensures r.name == b[c..e] && |r.ttl| == 4 && r.data == b[e + 10..n]
    ensures U16At(b, e) == r.kind && U16At(b, e + 2) == r.class_ && b[e + 4..e + 8] == r.ttl
            && U16At(b, e + 8) == |r.data|
  {
    e := Skip(b, c).value;
  }

  lemma RecordRendered(b: seq<byte>, c: nat, n: nat, r: Record)
    requires ReadRecord(b, c) == Some((r, n))
    ensures IsRecord(b, c, n, r)
  {
    var e := RecordShape(b, c, n, r);
    SkipIffName(b, c, e);
    MiddleAt(b, e, r);
    SplitSlice(b, c, e, e + 10, r.name, Middle(r));
    SplitSlice(b, c, e + 10, n, r.name + Middle(r), r.data);
  }

  lemma RecordParts(b: seq<byte>, c: nat, n: nat, r: Record)
    requires IsRecord(b, c, n, r)
    ensures var e := c + |r.name|;
            n == e + 10 + |r.data| && b[c..e] == r.name && b[e..e + 10] == Middle(r) && b[e + 10..n] == r.data
  {
    var e := c + |r.name|;
    assert |Middle(r)| == 10;
    SplitSlice(b, c, e + 10, n, r.name + Middle(r), r.data);
    SplitSlice(b, c, e, e + 10, r.name, Middle(r));
  }

  lemma RecordFields(b: seq<byte>, c: nat, n: nat, r: Record)
    requires IsRecord(b, c, n, r)
    ensures var e := c + |r.name|;
            && Skip(b, c) == Some(e) && n == e + 10 + |r.data| && b[c..e] == r.name
            && U16At(b, e) == r.kind && U16At(b, e + 2) == r.class_ && b[e + 4..e + 8] == r.ttl
            && U16At(b, e + 8) == |r.data| && b[e + 10..n] == r.data
  {
    var e := c + |r.name|;
    RecordParts(b, c, n, r);
    SkipIffName(b, c, e);
    MiddleAt(b, e, r);
  }

  lemma RecordParsed(b: seq<byte>, c: nat, n: nat, r: Record)
    requires IsRecord(b, c, n, r)
    ensures ReadRecord(b, c) == Some((r, n))
  {
    RecordFields(b, c, n, r);
  }

  // ---- Lists of questions and records ----

  function SkipQuestions(b: seq<byte>, c: nat, k: nat): Option<nat>
    decreases k
  {
    if k == 0 then Some(c)
    else match NextQuestion(b, c) case None => None case Some(n) => SkipQuestions(b, n, k - 1)
  }

  function ReadRecords(b: seq<byte>, c: nat, k: nat): Option<(seq<Record>, nat)>
    decreases k
  {
    if k == 0 then Some(([], c))
    else
      match ReadRecord(b, c)
      case None => None
      case Some(first) =>
        match ReadRecords(b, first.1, k - 1)
        case None => None
        case Some(rest) => Some(([first.0] + rest.0, rest.1))
  }

  function RenderQuestions(qs: seq<Question>): seq<byte> {
    if qs == [] then [] else RenderQuestion(qs[0]) + RenderQuestions(qs[1..])
  }

  function RenderRecords(rs: seq<Record>): seq<byte> {
    if rs == [] then [] else RenderRecord(rs[0]) + RenderRecords(rs[1..])
  }

  ghost predicate AreQuestions(b: seq<byte>, c: nat, n: nat, qs: seq<Question>) {
    c <= n <= |b| && (forall i :: 0 <= i < |qs| ==> ValidQuestion(qs[i])) && b[c..n] == RenderQuestions(qs)
  }

  ghost predicate AreRecords(b: seq<byte>, c: nat, n: nat, rs: seq<Record>) {
    c <= n <= |b| && (forall i :: 0 <= i < |rs| ==> ValidRecord(rs[i])) && b[c..n] == RenderRecords(rs)
  }

  lemma {:induction false} QuestionsRendered(b: seq<byte>, c: nat, n: nat, k: nat) returns (qs: seq<Question>)
    requires c <= |b| && SkipQuestions(b, c, k) == Some(n)
    ensures |qs| == k && AreQuestions(b, c, n, qs)
    decreases k
  {
    if k == 0 {
      qs := [];
    } else {
      var m := NextQuestion(b, c).value;
      QuestionRead(b, c, m);
      var q :| IsQuestion(b, c, m, q);
      var rest := QuestionsRendered(b, m, n, k - 1);
      qs := [q] + rest;
      assert qs[1..] == rest;
      SplitSlice(b, c, m, n, RenderQuestion(q), RenderQuestions(rest));
    }
  }

  lemma {:induction false} QuestionsSkipped(b: seq<byte>, c: nat, n: nat, qs: seq<Question>)
    requires AreQuestions(b, c, n, qs)
    ensures SkipQuestions(b, c, |qs|) == Some(n)
    decreases |qs|
  {
    if qs != [] {
      var m := c + |RenderQuestion(qs[0])|;
      SplitSlice(b, c, m, n, RenderQuestion(qs[0]), RenderQuestions(qs[1..]));
      assert IsQuestion(b, c, m, qs[0]);
      QuestionRead(b, c, m);
      QuestionsSkipped(b, m, n, qs[1..]);
    }
  }

  lemma {:induction false} RecordsRendered(b: seq<byte>, c: nat, n: nat, k: nat, rs: seq<Record>)
    requires c <= |b| && ReadRecords(b, c, k) == Some((rs, n))
    ensures |rs| == k && AreRecords(b, c, n, rs)
    decreases k
  {
    if k > 0 {
      var m := ReadRecord(b, c).value.1;
      RecordRendered(b, c, m, rs[0]);
      RecordsRendered(b, m, n, k - 1, rs[1..]);
      SplitSlice(b, c, m, n, RenderRecord(rs[0]), RenderRecords(rs[1..]));
    }
  }

  lemma OneMoreRecord(b: seq<byte>, c: nat, m: nat, n: nat, r: Record, rest: seq<Record>)
    requires c <= |b| && m <= |b| && ReadRecord(b, c) == Some((r, m)) && ReadRecords(b, m, |rest|) == Some((rest, n))
    ensures ReadRecords(b, c, |rest| + 1) == Some(([r] + rest, n))
  {
  }

  lemma FirstRecord(b: seq<byte>, c: nat, n: nat, rs: seq<Record>) returns (m: nat)
    requires AreRecords(b, c, n, rs) && rs != []
    ensures m <= |b| && IsRecord(b, c, m, rs[0]) && AreRecords(b, m, n, rs[1..])
  {
    m := c + |RenderRecord(rs[0])|;
    SplitSlice(b, c, m, n, RenderRecord(rs[0]), RenderRecords(rs[1..]));
  }

  lemma RecordsStep(b: seq<byte>, c: nat, m: nat, n: nat, r: Record, rest: seq<Record>, rs: seq<Record>)
    requires m <= |b| && IsRecord(b, c, m, r) && ReadRecords(b, m, |rest|) == Some((rest, n)) && rs == [r] + rest
    ensures ReadRecords(b, c, |rs|) == Some((rs, n))
  {
    RecordParsed(b, c, m, r);
    OneMoreRecord(b, c, m, n, r, rest);
  }

  lemma {:induction false} RecordsParsed(b: seq<byte>, c: nat, n: nat, rs: seq<Record>)
    requires AreRecords(b, c, n, rs)
    ensures ReadRecords(b, c, |rs|) == Some((rs, n))
    decreases |rs|
  {
    if rs != [] {
      var m := FirstRecord(b, c, n, rs);
      RecordsParsed(b, m, n, rs[1..]);
      assert rs == [rs[0]] + rs[1..];
      RecordsStep(b, c, m, n, rs[0], rs[1..], rs);
    }
  }

  // ---- Addresses ----

  predicate Wanted(r: Record, queryType: u16) {
    r.class_ == CLASS_IN && r.kind == queryType
  }

  /** The address in a wanted record, if its data has the size its type calls for. */
  function AddressIn(r: Record): Option<Address> {
    if r.kind == TYPE_A && |r.data| == 4 then Some(V4(r.data))
    else if r.kind == TYPE_AAAA && |r.data| == 16 then Some(V6(r.data))
    else None
  }

  /** The addresses of the wanted records, in order; none at all if one of them is ill-sized. */
  function Addresses(rs: seq<Record>, queryType: u16): Option<seq<Address>> {
    if rs == [] then Some([])
    else
      match Addresses(rs[1..], queryType)
      case None => None
      case Some(rest) =>
        if !Wanted(rs[0], queryType) then Some(rest)
        else match AddressIn(rs[0]) case None => None case Some(a) => Some([a] + rest)
  }

  predicate AcceptableFlags(flags: u16) {
    flags / 0x8000 % 2 == 1 && flags / 0x0200 % 2 == 0 && flags % 16 == 0
  }

  function Answers(b: seq<byte>, id: u16, queryType: u16): Option<seq<Address>> {
    if |b| < HEADER_LEN || U16At(b, 0) != id || !AcceptableFlags(U16At(b, 2)) then None
    else
      match SkipQuestions(b, HEADER_LEN, U16At(b, 4))
      case None => None
      case Some(c) =>
        match ReadRecords(b, c, U16At(b, 6))
        case None => None
        case Some(found) => Addresses(found.0, queryType)
  }

  // ---- Which records and which headers ----

  /** ix lists, in order, the records of class 1 and the given type. */
  ghost predicate Selects(rs: seq<Record>, queryType: u16, ix: seq<nat>) {
    && Increasing(ix) && AllMatch(rs, queryType, ix)
    && forall i :: 0 <= i < |rs| && IsMatch(rs[i], queryType) ==> i in ix
  }

  predicate IsMatch(r: Record, queryType: u16) {
    r.class_ == 1 && r.kind == queryType
  }

  /** Four bytes for type 1, sixteen for type 28. */
  predicate WellSized(r: Record) {
    (r.kind == 1 && |r.data| == 4) || (r.kind == 28 && |r.data| == 16)
  }

  predicate IsAddressOf(a: Address, r: Record) {
    a == if r.kind == 1 then V4(r.data) else V6(r.data)
  }

  ghost function Later(ix: seq<nat>): seq<nat> {
    seq(|ix|, j requires 0 <= j < |ix| => ix[j] + 1)
  }

  lemma LaterMembers(ix: seq<nat>, i: nat)
    ensures i + 1 in Later(ix) <==> i in ix
  {
    if i + 1 in Later(ix) {
      var j :| 0 <= j < |ix| && Later(ix)[j] == i + 1;
      assert ix[j] == i;
    }
    if i in ix {
      var j :| 0 <= j < |ix| && ix[j] == i;
      assert Later(ix)[j] == i + 1;
    }
  }

  ghost predicate Increasing(ix: seq<nat>) {
    forall i, j :: 0 <= i < j < |ix| ==> ix[i] < ix[j]
  }

  ghost predicate AllMatch(rs: seq<Record>, queryType: u16, ix: seq<nat>) {
    forall j :: 0 <= j < |ix| ==> ix[j] < |rs| && IsMatch(rs[ix[j]], queryType)
  }

  lemma LaterSelects(rs: seq<Record>, queryType: u16, ix: seq<nat>)
    requires rs != [] && Increasing(ix) && AllMatch(rs[1..], queryType, ix)
    ensures Increasing(Later(ix)) && AllMatch(rs, queryType, Later(ix))
    ensures forall j :: 0 <= j < |ix| ==> Later(ix)[j] > 0
  {
    forall j | 0 <= j < |ix| ensures Later(ix)[j] < |rs| && IsMatch(rs[Later(ix)[j]], queryType) {
      assert rs[ix[j] + 1] == rs[1..][ix[j]];
    }
  }

  lemma FirstSelects(rs: seq<Record>, queryType: u16, ix: seq<nat>)
    requires rs != [] && IsMatch(rs[0], queryType) && Increasing(ix) && AllMatch(rs, queryType, ix)
    requires forall j :: 0 <= j < |ix| ==> ix[j] > 0
    ensures Increasing([0] + ix) && AllMatch(rs, queryType, [0] + ix)
  {
  }

  lemma SelectsFirst(rs: seq<Record>, queryType: u16, ix: seq<nat>)
    requires rs != [] && Selects(rs[1..], queryType, ix)
    ensures Selects(rs, queryType, if IsMatch(rs[0], queryType) then [0] + Later(ix) else Later(ix))
  {
    LaterSelects(rs, queryType, ix);
    if IsMatch(rs[0], queryType) {
      FirstSelects(rs, queryType, Later(ix));
    }
    var all := if IsMatch(rs[0], queryType) then [0] + Later(ix) else Later(ix);
    forall i | 0 <= i < |rs| && IsMatch(rs[i], queryType) ensures i in all {
      if i > 0 {
        assert rs[i] == rs[1..][i - 1];
        LaterMembers(ix, i - 1);
      }
    }
  }

  ghost predicate AreAddresses(rs: seq<Record>, ix: seq<nat>, r: Option<seq<Address>>)
    requires forall j :: 0 <= j < |ix| ==> ix[j] < |rs|
  {
    if r.None? then exists j :: 0 <= j < |ix| && !WellSized(rs[ix[j]])
    else |r.value| == |ix| &&
         forall j :: 0 <= j < |ix| ==> WellSized(rs[ix[j]]) && IsAddressOf(r.value[j], rs[ix[j]])
  }

  lemma AddressesLater(rs: seq<Record>, ix: seq<nat>, r: Option<seq<Address>>)
    requires rs != [] && (forall j :: 0 <= j < |ix| ==> ix[j] < |rs[1..]|) && AreAddresses(rs[1..], ix, r)
    ensures AreAddresses(rs, Later(ix), r)
  {
    var all := Later(ix);
    if r.None? {
      var j :| 0 <= j < |ix| && !WellSized(rs[1..][ix[j]]);
      assert rs[all[j]] == rs[1..][ix[j]];
    } else {
      forall j | 0 <= j < |ix| ensures WellSized(rs[all[j]]) && IsAddressOf(r.value[j], rs[all[j]]) {
        assert rs[all[j]] == rs[1..][ix[j]];
      }
    }
  }

  lemma AddressesFirst(rs: seq<Record>, ix: seq<nat>, r: Option<seq<Address>>, a: Option<Address>)
    requires rs != [] && (forall j :: 0 <= j < |ix| ==> ix[j] < |rs|) && AreAddresses(rs, ix, r)
    requires if a.None? then !WellSized(rs[0]) else WellSized(rs[0]) && IsAddressOf(a.value, rs[0])
    ensures AreAddresses(rs, [0] + ix, if r.None? || a.None? then None else Some([a.value] + r.value))
  {
    var all := [0] + ix;
    if a.None? {
      assert !WellSized(rs[all[0]]);
    } else if r.None? {
      var j :| 0 <= j < |ix| && !WellSized(rs[ix[j]]);
      assert all[j + 1] == ix[j];
    } else {
      var both := [a.value] + r.value;
      forall j | 0 <= j < |all| ensures WellSized(rs[all[j]]) && IsAddressOf(both[j], rs[all[j]]) {
        if j > 0 {
          assert all[j] == ix[j - 1] && both[j] == r.value[j - 1];
        }
      }
    }
  }

  lemma AddressInIs(r: Record)
    ensures var a := AddressIn(r); if a.None? then !WellSized(r) else WellSized(r) && IsAddressOf(a.value, r)
  {
  }

  /** One record more: its address comes first, if it is asked for. */
  lemma AddressesUnfold(rs: seq<Record>, queryType: u16)
    requires rs != []
    ensures var r, a := Addresses(rs[1..], queryType), AddressIn(rs[0]);
            Addresses(rs, queryType) ==
            if !IsMatch(rs[0], queryType) then r
            else if r.None? || a.None? then None else Some([a.value] + r.value)
  {
  }

  /**
    The addresses found are, in order, the data of the records of class 1 and the type asked for; and
    none are if one of these is ill-sized for its type, or the type is neither 1 nor 28.
   */
  lemma {:induction false} AddressesSelected(rs: seq<Record>, queryType: u16) returns (ix: seq<nat>)
    ensures Selects(rs, queryType, ix) && AreAddresses(rs, ix, Addresses(rs, queryType))
    decreases |rs|
  {
    if rs == [] {
      ix := [];
    } else {
      var rest := AddressesSelected(rs[1..], queryType);
      ix := SelectedStep(rs, queryType, rest);
    }
  }

  lemma SelectedStep(rs: seq<Record>, queryType: u16, rest: seq<nat>) returns (ix: seq<nat>)
    requires rs != [] && Selects(rs[1..], queryType, rest)
    requires AreAddresses(rs[1..], rest, Addresses(rs[1..], queryType))
    ensures Selects(rs, queryType, ix) && AreAddresses(rs, ix, Addresses(rs, queryType))
  {
    var r := Addresses(rs[1..], queryType);
    SelectsFirst(rs, queryType, rest);
    AddressesLater(rs, rest, r);
    AddressesUnfold(rs, queryType);
    ix := Later(rest);
    if IsMatch(rs[0], queryType) {
      AddressInIs(rs[0]);
      AddressesFirst(rs, ix, r, AddressIn(rs[0]));
      ix := [0] + ix;
    }
  }

  /** The flags as two bytes: a response, not truncated, and without an error code. */
  lemma FlagBytes(hi: byte, lo: byte)
    ensures AcceptableFlags(FromBe16(hi, lo)) <==> hi >= 128 && hi / 2 % 2 == 0 && lo % 16 == 0
  {
    var flags := FromBe16(hi, lo);
    assert flags / 0x8000 == hi / 128 && flags / 0x0200 == hi / 2 && flags % 16 == lo % 16;
  }

  /** Whatever is accepted is long enough, has the id asked for, and such flags. */
  lemma AcceptedHeader(b: seq<byte>, id: u16, queryType: u16)
    requires Answers(b, id, queryType).Some?
    ensures |b| >= 12 && b[0] as int * 256 + b[1] == id && b[2] >= 128 && b[2] / 2 % 2 == 0 && b[3] % 16 == 0
  {
    FlagBytes(b[2], b[3]);
  }

  // ---- The parser's loops ----

  /** What is still to be read of k records from c on, put behind what has been found. */
  function Remaining(b: seq<byte>, c: nat, k: nat, queryType: u16, found: seq<Address>): Option<seq<Address>> {
    match ReadRecords(b, c, k)
    case None => None
    case Some(rest) => match Addresses(rest.0, queryType) case None => None case Some(a) => Some(found + a)
  }

  lemma RemainingStep(b: seq<byte>, c: nat, k: nat, queryType: u16, found: seq<Address>, r: Record, next: nat)
    requires k > 0 && ReadRecord(b, c) == Some((r, next))
    ensures Remaining(b, c, k, queryType, found) ==
            if !Wanted(r, queryType) then Remaining(b, next, k - 1, queryType, found)
            else match AddressIn(r) case None => None case Some(a) => Remaining(b, next, k - 1, queryType, found + [a])
  {
    match ReadRecords(b, next, k - 1)
    case None =>
    case Some(rest) =>
      var all := [r] + rest.0;
      assert all[1..] == rest.0;
      if Wanted(r, queryType) && AddressIn(r).Some? && Addresses(rest.0, queryType).Some? {
        var a, more := AddressIn(r).value, Addresses(rest.0, queryType).value;
        assert found + ([a] + more) == found + [a] + more;
      }
  }

  method ParseAnswers(b: seq<byte>, id: u16, queryType: u16) returns (r: Option<seq<Address>>)
    ensures r == Answers(b, id, queryType)
  {
    if |b| < HEADER_LEN || U16At(b, 0) != id {
      return None;
    }
    if !AcceptableFlags(U16At(b, 2)) {
      return None;
    }
    var cursor := ParseQuestions(b, HEADER_LEN, U16At(b, 4));
    if cursor.None? {
      return None;
    }
    r := ParseRecords(b, cursor.value, U16At(b, 6), queryType);
    NothingFound(b, cursor.value, U16At(b, 6), queryType);
  }

  lemma NothingFound(b: seq<byte>, c: nat, k: nat, queryType: u16)
    ensures Remaining(b, c, k, queryType, []) ==
            match ReadRecords(b, c, k) case None => None case Some(found) => Addresses(found.0, queryType)
  {
    match ReadRecords(b, c, k)
    case None =>
    case Some(found) =>
      match Addresses(found.0, queryType) {
        case None =>
        case Some(a) => assert [] + a == a;
      }
  }

  method ParseQuestions(b: seq<byte>, start: nat, questions: nat) returns (r: Option<nat>)
    requires start <= |b|
    ensures r == SkipQuestions(b, start, questions)
    ensures r.Some? ==> r.value <= |b|
  {
    var cursor := start;
    for i := 0 to questions
      invariant 0 <= cursor <= |b|
      invariant SkipQuestions(b, start, questions) == SkipQuestions(b, cursor, questions - i)
    {
      var end := SkipName(b, cursor);
      if end.None? || end.value + 4 > |b| {
        return None;
      }
      cursor := end.value + 4;
    }
    r := Some(cursor);
  }

  method ParseRecords(b: seq<byte>, start: nat, answers: nat, queryType: u16) returns (r: Option<seq<Address>>)
    requires start <= |b|
    ensures r == Remaining(b, start, answers, queryType, [])
  {
    var cursor, found: seq<Address> := start, [];
    for i := 0 to answers
      invariant 0 <= cursor <= |b|
      invariant Remaining(b, start, answers, queryType, []) == Remaining(b, cursor, answers - i, queryType, found)
    {
      var giveUp, next, extra := ParseRecord(b, cursor, queryType);
      if ReadRecord(b, cursor).Some? {
        RemainingStep(b, cursor, answers - i, queryType, found, ReadRecord(b, cursor).value.0,
                      ReadRecord(b, cursor).value.1);
      }
      if giveUp {
        return None;
      }
      assert found + [] == found;
      found := found + extra;
      cursor := next;
    }
    assert found + [] == found;
    r := Some(found);
  }

  /** One turn of the answer loop: give up, or go on at `next` with `extra` found. */
  method ParseRecord(b: seq<byte>, start: nat, queryType: u16) returns (giveUp: bool, next: nat, extra: seq<Address>)
    requires start <= |b|
    ensures giveUp <==> ReadRecord(b, start).None? ||
                        (Wanted(ReadRecord(b, start).value.0, queryType)
                         && AddressIn(ReadRecord(b, start).value.0).None?)
    ensures !giveUp ==> next == ReadRecord(b, start).value.1 <= |b|
    ensures !giveUp ==> extra == if Wanted(ReadRecord(b, start).value.0, queryType)
            then [AddressIn(ReadRecord(b, start).value.0).value] else []
  {
    next, extra := start, [];
    var end := SkipName(b, start);
    if end.None? {
      return true, next, extra;
    }
    var cursor := end.value;
    var kind := ReadU16(b, cursor);
    var class_ := ReadU16(b, cursor + 2);
    var length := ReadU16(b, cursor + 8);
    if kind.None? || class_.None? || length.None? {
      return true, next, extra;
    }
    var dataStart := cursor + 10;
    var dataEnd := dataStart + length.value;
    if dataEnd > |b| {
      return true, next, extra;
    }
    if class_.value == CLASS_IN && kind.value == queryType {
      if kind.value == TYPE_A && length.value == 4 {
        extra := [V4(b[dataStart..dataStart + 4])];
      } else if kind.value == TYPE_AAAA && length.value == 16 {
        extra := [V6(b[dataStart..dataEnd])];
      } else {
        return true, next, extra;
      }
    }
    giveUp, next := false, dataEnd;
  }

  // ---- Whole messages ----

  datatype Message = Message(id: u16, flags: u16, questions: seq<Question>, records: seq<Record>, counts: seq<byte>,
                             rest: seq<byte>)

  ghost predicate ValidMessage(m: Message) {
    && |m.questions| < TWO_16 && |m.records| < TWO_16 && |m.counts| == 4
    && (forall i :: 0 <= i < |m.questions| ==> ValidQuestion(m.questions[i]))
    && (forall i :: 0 <= i < |m.records| ==> ValidRecord(m.records[i]))
  }

  function Header(m: Message): seq<byte> {
    Be16(m.id) + Be16(m.flags) + Be16(|m.questions|) + Be16(|m.records|) + m.counts
  }

  function Render(m: Message): seq<byte> {
    Header(m) + RenderQuestions(m.questions) + RenderRecords(m.records) + m.rest
  }

  lemma HeaderAt(b: seq<byte>, m: Message)
    requires |b| >= HEADER_LEN && ValidMessage(m)
    ensures b[0..12] == Header(m) <==>
            U16At(b, 0) == m.id && U16At(b, 2) == m.flags && U16At(b, 4) == |m.questions|
              && U16At(b, 6) == |m.records| && b[8..12] == m.counts
  {
    var p, q, r, t, d := Be16(m.id), Be16(m.flags), Be16(|m.questions|), Be16(|m.records|), m.counts;
    U16Slice(b, 0, m.id);
    U16Slice(b, 2, m.flags);
    U16Slice(b, 4, |m.questions|);
    U16Slice(b, 6, |m.records|);
    SplitSlice(b, 0, 8, 12, p + q + r + t, d);
    SplitSlice(b, 0, 6, 8, p + q + r, t);
    SplitSlice(b, 0, 4, 6, p + q, r);
    SplitSlice(b, 0, 2, 4, p, q);
  }

  lemma SectionsAt(b: seq<byte>, m: Message, c: nat, e: nat)
    requires ValidMessage(m) && 12 <= c <= e <= |b|
    requires c == 12 + |RenderQuestions(m.questions)| && e == c + |RenderRecords(m.records)|
    ensures b == Render(m) <==>
            b[0..12] == Header(m) && b[12..c] == RenderQuestions(m.questions) && b[c..e] == RenderRecords(m.records)
              && b[e..|b|] == m.rest
  {
    var h, q, r := Header(m), RenderQuestions(m.questions), RenderRecords(m.records);
    assert |h| == 12 && b[0..|b|] == b;
    SplitSlice(b, 0, e, |b|, h + q + r, m.rest);
    SplitSlice(b, 0, c, e, h + q, r);
    SplitSlice(b, 0, 12, c, h, q);
  }

  /** The bytes of a record: type, class and length stand behind the name with the high byte first. */
  lemma RecordBytes(r: Record)
    requires ValidRecord(r)
    ensures RenderRecord(r) == r.name + [r.kind / 256, r.kind % 256, r.class_ / 256, r.class_ % 256] + r.ttl +
                                 [|r.data| / 256, |r.data| % 256] + r.data
  {
    HighFirst(r.kind);
    HighFirst(r.class_);
    HighFirst(|r.data|);
    assert Be16(r.kind) + Be16(r.class_) == [r.kind / 256, r.kind % 256, r.class_ / 256, r.class_ % 256];
    MiddleLast(r.name, [r.kind / 256, r.kind % 256, r.class_ / 256, r.class_ % 256], r.ttl,
               [|r.data| / 256, |r.data| % 256]);
  }

  lemma MiddleLast(a: seq<byte>, b: seq<byte>, c: seq<byte>, d: seq<byte>)
    ensures a + (b + c + d) == a + b + c + d
  {
  }

  /** The bytes of a header: id, flags and counts with the high byte first. */
  lemma HeaderBytes(m: Message)
    requires ValidMessage(m)
    ensures var q, n := |m.questions|, |m.records|;
            Header(m) == [m.id / 256, m.id % 256, m.flags / 256, m.flags % 256, q / 256, q % 256, n / 256, n % 256] +
                           m.counts
  {
    HighFirst(m.id);
    HighFirst(m.flags);
    HighFirst(|m.questions|);
    HighFirst(|m.records|);
  }

  lemma RenderedFlags(m: Message)
    requires ValidMessage(m)
    ensures |Render(m)| >= 12
    ensures var b := Render(m);
            AcceptableFlags(m.flags) <==> b[2] >= 128 && b[2] / 2 % 2 == 0 && b[3] % 16 == 0
  {
    var b := Render(m);
    RenderedHeader(m, b);
    FlagBytes(b[2], b[3]);
  }

  lemma RenderedHeader(m: Message, b: seq<byte>)
    requires ValidMessage(m) && b == Render(m)
    ensures |b| >= 12 && U16At(b, 2) == m.flags
  {
    assert |Header(m)| == 12;
    var c := 12 + |RenderQuestions(m.questions)|;
    SectionsAt(b, m, c, c + |RenderRecords(m.records)|);
    HeaderAt(b, m);
  }

  /**
    A message is read to the end, whatever follows its records, if its third and fourth bytes say that
    it is a response, not truncated and without an error code.
   */
  lemma RenderedIsRead(m: Message, queryType: u16)
    requires ValidMessage(m) && |Render(m)| >= 12
    requires var b := Render(m); b[2] >= 128 && b[2] / 2 % 2 == 0 && b[3] % 16 == 0
    ensures Answers(Render(m), m.id, queryType) == Addresses(m.records, queryType)
  {
    var b := Render(m);
    var c := 12 + |RenderQuestions(m.questions)|;
    var e := c + |RenderRecords(m.records)|;
    assert |Header(m)| == 12;
    RenderedFlags(m);
    SectionsAt(b, m, c, e);
    HeaderAt(b, m);
    QuestionsSkipped(b, 12, c, m.questions);
    RecordsParsed(b, c, e, m.records);
  }

  /**
    And only such messages are: whatever bytes are accepted, they are the rendering of a message with
    just these addresses.
   */
  lemma ReadIsRendered(b: seq<byte>, id: u16, queryType: u16) returns (m: Message)
    requires Answers(b, id, queryType).Some?
    ensures ValidMessage(m) && Render(m) == b && m.id == id
    ensures |b| >= 12 && b[2] >= 128 && b[2] / 2 % 2 == 0 && b[3] % 16 == 0
    ensures Addresses(m.records, queryType) == Answers(b, id, queryType)
  {
    AcceptedHeader(b, id, queryType);
    var c := SkipQuestions(b, 12, U16At(b, 4)).value;
    var qs := QuestionsRendered(b, 12, c, U16At(b, 4));
    var rs, e := ReadRecords(b, c, U16At(b, 6)).value.0, ReadRecords(b, c, U16At(b, 6)).value.1;
    RecordsRendered(b, c, e, U16At(b, 6), rs);
    m := Message(id, U16At(b, 2), qs, rs, b[8..12], b[e..|b|]);
    HeaderAt(b, m);
    SectionsAt(b, m, c, e);
  }

  // ---- The question asked ----

  /** The query for a name. */
  function Query(id: u16, name: seq<byte>, queryType: u16): Message
    requires DnsName.Encodable(name)
  {
    Message(id, RECURSION_DESIRED, [Asked(name, queryType)], [], [0, 0, 0, 0], [])
  }

  function Asked(name: seq<byte>, queryType: u16): Question
    requires DnsName.Encodable(name)
  {
    Question(Encoded(name), Be16(queryType) + Be16(CLASS_IN))
  }

  /** A question on the wire: twelve bytes of header, the name, the type asked for and class 1. */
  lemma QueryOnWire(id: u16, name: seq<byte>, queryType: u16)
    requires DnsName.Encodable(name)
    ensures Render(Query(id, name, queryType)) ==
            [id / 256, id % 256, 1, 0, 0, 1, 0, 0, 0, 0, 0, 0] + Encoded(name) +
              [queryType / 256, queryType % 256, 0, 1]
  {
    QueryBytes(id, name, queryType);
    HighFirst(id);
    HighFirst(queryType);
    assert Be16(id) + Be16(RECURSION_DESIRED) + Be16(1) + Be16(0) + Be16(0) + Be16(0) ==
           [id / 256, id % 256, 1, 0, 0, 1, 0, 0, 0, 0, 0, 0];
    Ending([id / 256, id % 256, 1, 0, 0, 1, 0, 0, 0, 0, 0, 0] + Encoded(name), queryType / 256, queryType % 256);
  }

  lemma Ending(a: seq<byte>, hi: byte, lo: byte)
    ensures a + [hi, lo] + Be16(CLASS_IN) == a + [hi, lo, 0, 1]
  {
  }

  method WriteQuestion(id: u16, name: seq<byte>, queryType: u16) returns (r: Option<seq<byte>>)
    ensures r == if DnsName.Encodable(name) then Some(Render(Query(id, name, queryType))) else None
  {
    var query := Be16(id);
    query := query + Be16(RECURSION_DESIRED);
    query := query + Be16(1);
    query := query + Be16(0);
    query := query + Be16(0);
    query := query + Be16(0);
    var named := EncodeName(name, query);
    if named.None? {
      return None;
    }
    query := named.value;
    query := query + Be16(queryType);
    query := query + Be16(CLASS_IN);
    QueryBytes(id, name, queryType);
    r := Some(query);
  }

  lemma QueryBytes(id: u16, name: seq<byte>, queryType: u16)
    requires DnsName.Encodable(name)
    ensures Render(Query(id, name, queryType)) ==
            Be16(id) + Be16(RECURSION_DESIRED) + Be16(1) + Be16(0) + Be16(0) + Be16(0) + Encoded(name) +
              Be16(queryType) + Be16(CLASS_IN)
  {
    var m, q := Query(id, name, queryType), Asked(name, queryType);
    assert m.questions[1..] == [] && RenderQuestions(m.questions) == RenderQuestion(q) + [];
    assert Be16(0) + Be16(0) == [0, 0, 0, 0];
    assert Header(m) == Be16(id) + Be16(RECURSION_DESIRED) + Be16(1) + Be16(0) + Be16(0) + Be16(0);
    assert RenderQuestion(q) == Encoded(name) + Be16(queryType) + Be16(CLASS_IN);
  }

  /** A reply that repeats the question and adds records is read as exactly the addresses of those records. */
  lemma ReplyIsRead(id: u16, name: seq<byte>, queryType: u16, hi: byte, lo: byte, rs: seq<Record>, counts: seq<byte>,
                    rest: seq<byte>)
    requires DnsName.Encodable(name) && |rs| < TWO_16 && |counts| == 4
    requires hi >= 128 && hi / 2 % 2 == 0 && lo % 16 == 0
    requires forall i :: 0 <= i < |rs| ==> ValidRecord(rs[i])
    ensures var reply := Query(id, name, queryType).(flags := 256 * hi + lo, records := rs, counts := counts,
                                                     rest := rest);
            Answers(Render(reply), id, queryType) == Addresses(rs, queryType)
  {
    EncodedIsName(name);
    FlaggedIsRead(Query(id, name, queryType).(flags := 256 * hi + lo, records := rs, counts := counts, rest := rest),
                  queryType, hi, lo);
  }

  lemma FlaggedIsRead(m: Message, queryType: u16, hi: byte, lo: byte)
    requires ValidMessage(m) && m.flags == 256 * hi + lo && hi >= 128 && hi / 2 % 2 == 0 && lo % 16 == 0
    ensures Answers(Render(m), m.id, queryType) == Addresses(m.records, queryType)
  {
    FlagBytes(hi, lo);
    RenderedFlags(m);
    RenderedIsRead(m, queryType);
  }

  lemma AllSelected(rs: seq<Record>, queryType: u16, ix: seq<nat>)
    requires Selects(rs, queryType, ix) && forall i :: 0 <= i < |rs| ==> IsMatch(rs[i], queryType)
    ensures |ix| == |rs| && forall j :: 0 <= j < |ix| ==> ix[j] == j
  {
    forall j | 0 <= j < |rs| ensures j < |ix| && ix[j] == j {
      InOrder(rs, queryType, ix, j);
    }
    if rs != [] {
      InOrder(rs, queryType, ix, |rs| - 1);
    }
    if |ix| > |rs| {
      assert ix[|rs|] < |rs|;
      AtLeastIndex(ix, |rs|);
    }
  }

  lemma {:induction false} AtLeastIndex(ix: seq<nat>, j: nat)
    requires j < |ix| && Increasing(ix)
    ensures ix[j] >= j
  {
    if j > 0 {
      AtLeastIndex(ix, j - 1);
    }
  }

  lemma OrderOf(ix: seq<nat>, i: nat, j: nat)
    requires Increasing(ix) && i < |ix| && j < |ix| && ix[i] < ix[j]
    ensures i < j
  {
  }

  lemma {:induction false} InOrder(rs: seq<Record>, queryType: u16, ix: seq<nat>, j: nat)
    requires Selects(rs, queryType, ix) && (forall i :: 0 <= i < |rs| ==> IsMatch(rs[i], queryType)) && j < |rs|
    ensures j < |ix| && ix[j] == j
  {
    assert IsMatch(rs[j], queryType);
    var k :| 0 <= k < |ix| && ix[k] == j;
    AtLeastIndex(ix, k);
    if j > 0 {
      InOrder(rs, queryType, ix, j - 1);
      OrderOf(ix, j - 1, k);
    }
  }

  /** When every record is a well-sized answer of the type asked for, that is one address per record, in order. */
  lemma AllAnswers(rs: seq<Record>, queryType: u16)
    requires forall i :: 0 <= i < |rs| ==> IsMatch(rs[i], queryType) && WellSized(rs[i])
    ensures Addresses(rs, queryType).Some? && |Addresses(rs, queryType).value| == |rs|
    ensures forall i :: 0 <= i < |rs| ==> IsAddressOf(Addresses(rs, queryType).value[i], rs[i])
  {
    var ix := AddressesSelected(rs, queryType);
    AllSelected(rs, queryType, ix);
  }
}
