/** The mDNS reverse query and the decoding of its answer (internal/scanner/agent/names.go). */
module MdnsLookup {
  import opened DnsName

  type U16 = n: int | 0 <= n < 0x1_0000

  const HEADER_LEN: nat := 12
  const PTR: U16 := 0x000c

  function BigEndian(buf: Bytes, pos: nat): (r: U16)
    requires pos + 2 <= |buf|
  {
    var hi: int, lo: int := buf[pos], buf[pos + 1];
    hi * 256 + lo
  }

  function Bytes16(n: U16): Bytes {
    [n / 256, n % 256]
  }

  /** `strings.TrimSuffix(name, ".")`. */
  function TrimDot(name: Bytes): Bytes {
    if name != [] && name[|name| - 1] == DOT then name[..|name| - 1] else name
  }

  // ----- the parser -----

  /** The offset after `count` questions. */
  function SkipQuestions(resp: Bytes, pos: nat, count: nat): Result<nat>
    decreases count
  {
    if count == 0 then Ok(pos)
    else match Skip(resp, pos)
      case Err => Err
      case Ok(end) => if end + 4 > |resp| then Err else SkipQuestions(resp, end + 4, count - 1)
  }

  datatype Outcome = Bad | Found(name: Bytes) | More(next: nat)

  /** One answer record: NAME, TYPE(2), CLASS(2), TTL(4), RDLENGTH(2), RDATA. */
  function Record(resp: Bytes, pos: nat): Outcome {
    match Skip(resp, pos)
    case Err => Bad
    case Ok(end) =>
      if end + 10 > |resp| || end + 10 + BigEndian(resp, end + 8) > |resp| then Bad
      else
        var next := More(end + 10 + BigEndian(resp, end + 8));
        if BigEndian(resp, end) != PTR then next
        else match Decoded(Read(resp, end + 10, MAX_HOPS))
          case Err => Bad
          case Ok(name) => if TrimDot(name.dotted) != [] then Found(TrimDot(name.dotted)) else next
  }

  /** The first usable PTR name among `count` answer records. */
  function FindPTR(resp: Bytes, pos: nat, count: nat): Result<Bytes>
    decreases count
  {
    if count == 0 then Err
    else match Record(resp, pos)
      case Bad => Err
      case Found(name) => Ok(name)
      case More(next) => FindPTR(resp, next, count - 1)
  }

  function Parse(resp: Bytes): Result<Bytes> {
    if |resp| < HEADER_LEN || BigEndian(resp, 6) == 0 then Err
    else match SkipQuestions(resp, HEADER_LEN, BigEndian(resp, 4))
      case Err => Err
      case Ok(pos) => FindPTR(resp, pos, BigEndian(resp, 6))
  }

  /** `parseMDNSPTRResponse`. */
  method ParseMDNSPTRResponse(resp: Bytes) returns (r: Result<Bytes>)
    ensures r == Parse(resp)
  {
    if |resp| < HEADER_LEN {
      return Err;
    }
    var qd, an := BigEndian(resp, 4), BigEndian(resp, 6);
    if an == 0 {
      return Err;
    }
    var pos: nat := HEADER_LEN;
    for i := 0 to qd
      invariant SkipQuestions(resp, pos, qd - i) == SkipQuestions(resp, HEADER_LEN, qd)
    {
      var end := SkipName(resp, pos);
      if end.Err? {
        return Err;
      }
      pos := end.value + 4;
      if pos > |resp| {
        return Err;
      }
    }
    ghost var parsed := FindPTR(resp, pos, an);
    for i := 0 to an
      invariant FindPTR(resp, pos, an - i) == parsed
    {
      var o := ReadRecord(resp, pos);
      match o {
        case Bad => return Err;
        case Found(name) => return Ok(name);
        case More(next) => pos := next;
      }
    }
    return Err;
  }

  method ReadRecord(resp: Bytes, pos: nat) returns (o: Outcome)
    ensures o == Record(resp, pos)
  {
    var end := SkipName(resp, pos);
    if end.Err? || end.value + 10 > |resp| {
      return Bad;
    }
    var rrType, rdlen := BigEndian(resp, end.value), BigEndian(resp, end.value + 8);
    var rdataStart := end.value + 10;
    if rdataStart + rdlen > |resp| {
      return Bad;
    }
    if rrType == PTR {
      var name := ReadDNSName(resp, rdataStart);
      if name.Err? {
        return Bad;
      }
      if TrimDot(name.value.dotted) != [] {
        return Found(TrimDot(name.value.dotted));
      }
    }
    return More(rdataStart + rdlen);
  }

  // ----- well-formed messages -----

  /** Bytes that form one name in its record: labels closed by a zero byte or by a pointer. */
  predicate WireName(w: Bytes) {
    Skip(w, 0) == Ok(|w|)
  }

  type Fixed = b: Bytes | |b| == 6 witness [0, 0, 0, 0, 0, 0]

  /** `fixed` holds the class and the time to live. */
  datatype Answer = Answer(owner: Bytes, rrType: U16, fixed: Fixed, rdata: Bytes)

  datatype Question = Question(name: Bytes, qType: U16, qClass: U16)

  datatype Message = Message(id: U16, flags: U16, questions: seq<Question>, answers: seq<Answer>, rest: Bytes)

  function EncodeQuestions(qs: seq<Question>): Bytes {
    if qs == [] then [] else qs[0].name + (Bytes16(qs[0].qType) + Bytes16(qs[0].qClass)) + EncodeQuestions(qs[1..])
  }

  function EncodeAnswer(a: Answer): Bytes
    requires |a.rdata| < 0x1_0000
  {
    a.owner + Bytes16(a.rrType) + a.fixed + Bytes16(|a.rdata|) + a.rdata
  }

  function EncodeAnswers(answers: seq<Answer>): Bytes
    requires forall i :: 0 <= i < |answers| ==> |answers[i].rdata| < 0x1_0000
  {
    if answers == [] then [] else EncodeAnswer(answers[0]) + EncodeAnswers(answers[1..])
  }

  /** Authority and additional records follow as `rest`. */
  function Header(m: Message): Bytes
    requires |m.questions| < 0x1_0000 && |m.answers| < 0x1_0000
  {
    Bytes16(m.id) + Bytes16(m.flags) + Bytes16(|m.questions|) + Bytes16(|m.answers|) + [0, 0, 0, 0]
  }

  function Encode(m: Message): Bytes
    requires |m.questions| < 0x1_0000 && |m.answers| < 0x1_0000
    requires forall i :: 0 <= i < |m.answers| ==> |m.answers[i].rdata| < 0x1_0000
  {
    Header(m) + EncodeQuestions(m.questions) + EncodeAnswers(m.answers) + m.rest
  }

  /** What a resolver is owed: the first PTR record that names something, in record order. */
  ghost function FirstName(buf: Bytes, pos: nat, answers: seq<Answer>): Result<Bytes>
    decreases |answers|
  {
    if answers == [] then Err
    else Named(buf, pos, answers[0], FirstName(buf, pos + Length(answers[0]), answers[1..]))
  }

  /** What one record says of the name, the records after it naming `rest`. */
  ghost function Named(buf: Bytes, pos: nat, a: Answer, rest: Result<Bytes>): Result<Bytes> {
    if a.rrType != PTR then rest
    else match Decoded(Read(buf, pos + |a.owner| + 10, MAX_HOPS))
      case Err => Err
      case Ok(name) => if TrimDot(name.dotted) != [] then Ok(TrimDot(name.dotted)) else rest
  }

  lemma {:induction false} SkipInContext(before: Bytes, w: Bytes, after: Bytes, pos: nat)
    requires pos <= |w| && Skip(w, pos).Ok?
    ensures Skip(before + w + after, |before| + pos) == Ok(|before| + Skip(w, pos).value)
    decreases |w| - pos
  {
    var buf := before + w + after;
    assert buf[|before| + pos] == w[pos];
    var n := w[pos];
    if n != 0 && !IsPointer(n) {
      SkipInContext(before, w, after, pos + 1 + n);
    }
  }

  lemma WireNameInContext(before: Bytes, w: Bytes, after: Bytes)
    requires WireName(w)
    ensures Skip(before + w + after, |before|) == Ok(|before| + |w|)
  {
    SkipInContext(before, w, after, 0);
  }

  function Length(a: Answer): nat {
    |a.owner| + 10 + |a.rdata|
  }

  /** The record's fields are found at `pos`. */
  ghost predicate At(buf: Bytes, pos: nat, a: Answer) {
    var end := pos + |a.owner|;
    && pos + Length(a) <= |buf| && Skip(buf, pos) == Ok(end)
    && BigEndian(buf, end) == a.rrType && BigEndian(buf, end + 8) == |a.rdata|
  }

  ghost predicate Laid(buf: Bytes, pos: nat, answers: seq<Answer>)
    decreases |answers|
  {
    answers == [] || (At(buf, pos, answers[0]) && Laid(buf, pos + Length(answers[0]), answers[1..]))
  }

  lemma FieldsOfRecord(buf: Bytes, pos: nat, a: Answer)
    requires At(buf, pos, a)
    ensures Record(buf, pos) ==
      match Named(buf, pos, a, Err)
      case Ok(name) => Found(name)
      case Err => if a.rrType == PTR && Decoded(Read(buf, pos + |a.owner| + 10, MAX_HOPS)).Err? then Bad else More(pos + Length(a))
  {
  }

  lemma RecordAt(buf: Bytes, pos: nat, a: Answer, count: nat)
    requires At(buf, pos, a)
    ensures FindPTR(buf, pos, count + 1) == Named(buf, pos, a, FindPTR(buf, pos + Length(a), count))
  {
    FieldsOfRecord(buf, pos, a);
    var o := Record(buf, pos);
  }

  lemma {:induction false} LaidIsParsed(buf: Bytes, pos: nat, answers: seq<Answer>)
    requires Laid(buf, pos, answers)
    ensures FindPTR(buf, pos, |answers|) == FirstName(buf, pos, answers)
    decreases |answers|
  {
    if answers != [] {
      var a, rest := answers[0], answers[1..];
      LaidIsParsed(buf, pos + Length(a), rest);
      RecordAt(buf, pos, a, |rest|);
    }
  }

  lemma {:induction false} EncodedIsLaid(before: Bytes, answers: seq<Answer>, after: Bytes)
    requires forall i :: 0 <= i < |answers| ==> WireName(answers[i].owner) && |answers[i].rdata| < 0x1_0000
    ensures Laid(before + EncodeAnswers(answers) + after, |before|, answers)
    decreases |answers|
  {
    if answers != [] {
      var a, rest := answers[0], EncodeAnswers(answers[1..]);
      var one := EncodeAnswer(a);
      Regroup(before, one, rest, after);
      EncodedIsAt(before, a, rest + after);
      EncodedIsLaid(before + one, answers[1..], after);
      assert |before + one| == |before| + Length(a);
      FirstLaid((before + one) + rest + after, |before|, answers);
    }
  }

  lemma FirstLaid(buf: Bytes, pos: nat, answers: seq<Answer>)
    requires answers != [] && At(buf, pos, answers[0]) && Laid(buf, pos + Length(answers[0]), answers[1..])
    ensures Laid(buf, pos, answers)
  {
  }

  lemma Regroup(before: Bytes, x: Bytes, y: Bytes, after: Bytes)
    ensures before + (x + y) + after == before + x + (y + after)
    ensures before + (x + y) + after == (before + x) + y + after
  {
  }

  lemma EncodedIsAt(before: Bytes, a: Answer, after: Bytes)
    requires WireName(a.owner) && |a.rdata| < 0x1_0000
    ensures At(before + EncodeAnswer(a) + after, |before|, a)
  {
    var buf := before + EncodeAnswer(a) + after;
    var fields := Bytes16(a.rrType) + a.fixed + Bytes16(|a.rdata|);
    assert buf == before + a.owner + (fields + a.rdata + after);
    WireNameInContext(before, a.owner, fields + a.rdata + after);
    assert buf == (before + a.owner) + fields + (a.rdata + after);
    FieldsAt(buf, before + a.owner, a, a.rdata + after);
  }

  lemma FieldsAt(buf: Bytes, before: Bytes, a: Answer, after: Bytes)
    requires |a.rdata| < 0x1_0000
    requires buf == before + (Bytes16(a.rrType) + a.fixed + Bytes16(|a.rdata|)) + after
    ensures |before| + 10 <= |buf|
    ensures BigEndian(buf, |before|) == a.rrType && BigEndian(buf, |before| + 8) == |a.rdata|
  {
    var k := |before|;
    assert buf[k] == a.rrType / 256 && buf[k + 1] == a.rrType % 256;
    assert buf[k + 8] == |a.rdata| / 256 && buf[k + 9] == |a.rdata| % 256;
  }

  ghost predicate QuestionsLaid(buf: Bytes, pos: nat, qs: seq<Question>)
    decreases |qs|
  {
    qs == [] || (
      && Skip(buf, pos) == Ok(pos + |qs[0].name|) && pos + |qs[0].name| + 4 <= |buf|
      && QuestionsLaid(buf, pos + |qs[0].name| + 4, qs[1..])
    )
  }

  function QuestionsLength(qs: seq<Question>): nat {
    if qs == [] then 0 else |qs[0].name| + 4 + QuestionsLength(qs[1..])
  }

  /** The buffer is a well-formed response with these records, its names compressed or not. */
  ghost predicate WellFormed(buf: Bytes, m: Message) {
    && |buf| >= HEADER_LEN && m.answers != []
    && BigEndian(buf, 4) == |m.questions| && BigEndian(buf, 6) == |m.answers|
    && QuestionsLaid(buf, HEADER_LEN, m.questions)
    && Laid(buf, HEADER_LEN + QuestionsLength(m.questions), m.answers)
  }

  lemma {:induction false} QuestionsSkipped(buf: Bytes, pos: nat, qs: seq<Question>)
    requires QuestionsLaid(buf, pos, qs)
    ensures SkipQuestions(buf, pos, |qs|) == Ok(pos + QuestionsLength(qs))
    decreases |qs|
  {
    if qs != [] {
      QuestionsSkipped(buf, pos + |qs[0].name| + 4, qs[1..]);
    }
  }

  /** Where record `i` stands. */
  function RecordPos(pos: nat, answers: seq<Answer>, i: nat): nat
    requires i <= |answers|
    decreases i
  {
    if i == 0 then pos else RecordPos(pos + Length(answers[0]), answers[1..], i - 1)
  }

  /** The name at the data of record `i`. */
  function NameOf(buf: Bytes, pos: nat, answers: seq<Answer>, i: nat): Result<Name>
    requires i < |answers|
  {
    Decoded(Read(buf, RecordPos(pos, answers, i) + |answers[i].owner| + 10, MAX_HOPS))
  }

  predicate Usable(r: Result<Name>) {
    r.Ok? && r.value.dotted != [] && r.value.dotted != [DOT]
  }

  /** A PTR record that names nothing; one that cannot be read ends the search. */
  predicate Passed(a: Answer, r: Result<Name>) {
    a.rrType != 12 || (r.Ok? && !Usable(r))
  }

  /** The name found is that of a PTR record, one trailing dot dropped, and no PTR record before it names anything. */
  lemma {:induction false} FoundIsFirst(buf: Bytes, pos: nat, answers: seq<Answer>, name: Bytes) returns (i: nat)
    requires FirstName(buf, pos, answers) == Ok(name)
    ensures i < |answers| && answers[i].rrType == 12 && Usable(NameOf(buf, pos, answers, i))
    ensures Undotted(NameOf(buf, pos, answers, i).value.dotted, name)
    ensures forall k :: 0 <= k < i ==> Passed(answers[k], NameOf(buf, pos, answers, k))
    decreases |answers|
  {
    var r := NameOf(buf, pos, answers, 0);
    TrimmedName(r);
    if answers[0].rrType == PTR && Usable(r) {
      i := 0;
    } else {
      var next := pos + Length(answers[0]);
      i := FoundIsFirst(buf, next, answers[1..], name);
      forall k | 0 < k <= i + 1 && k < |answers|
        ensures NameOf(buf, pos, answers, k) == NameOf(buf, next, answers[1..], k - 1)
      {
      }
      i := i + 1;
      forall k | 0 <= k < i
        ensures Passed(answers[k], NameOf(buf, pos, answers, k))
      {
        if k > 0 {
          assert Passed(answers[1..][k - 1], NameOf(buf, next, answers[1..], k - 1));
        }
      }
    }
  }

  /** One trailing dot, if there is one, is dropped. */
  predicate Undotted(dotted: Bytes, name: Bytes) {
    dotted == name + [DOT] || (dotted == name && name != [] && name[|name| - 1] != DOT)
  }

  lemma TrimmedName(r: Result<Name>)
    ensures r.Ok? ==> (TrimDot(r.value.dotted) != [] <==> Usable(r))
    ensures Usable(r) ==> Undotted(r.value.dotted, TrimDot(r.value.dotted))
  {
  }

  /** A well-formed response yields the first PTR name that is not empty, whatever else it carries. */
  lemma ResponseNamesTheHost(buf: Bytes, m: Message)
    requires WellFormed(buf, m)
    ensures Parse(buf) == FirstName(buf, HEADER_LEN + QuestionsLength(m.questions), m.answers)
  {
    AnswersFollow(buf, m);
    LaidIsParsed(buf, HEADER_LEN + QuestionsLength(m.questions), m.answers);
  }

  lemma AnswersFollow(buf: Bytes, m: Message)
    requires WellFormed(buf, m)
    ensures Parse(buf) == FindPTR(buf, HEADER_LEN + QuestionsLength(m.questions), |m.answers|)
  {
    QuestionsSkipped(buf, HEADER_LEN, m.questions);
  }

  lemma {:induction false} EncodedQuestionsLaid(before: Bytes, qs: seq<Question>, after: Bytes)
    requires forall i :: 0 <= i < |qs| ==> WireName(qs[i].name)
    ensures QuestionsLaid(before + EncodeQuestions(qs) + after, |before|, qs)
    ensures |EncodeQuestions(qs)| == QuestionsLength(qs)
    decreases |qs|
  {
    if qs != [] {
      var q, rest := qs[0], EncodeQuestions(qs[1..]);
      var tail := Bytes16(q.qType) + Bytes16(q.qClass);
      Regroup(before, q.name + tail, rest, after);
      Regroup(before, q.name, tail, rest + after);
      WireNameInContext(before, q.name, tail + (rest + after));
      EncodedQuestionsLaid(before + (q.name + tail), qs[1..], after);
    }
  }

  /** Every message of uncompressed records, written out, is such a response. */
  lemma EncodedIsWellFormed(m: Message)
    requires |m.questions| < 0x1_0000 && 0 < |m.answers| < 0x1_0000
    requires forall i :: 0 <= i < |m.questions| ==> WireName(m.questions[i].name)
    requires forall i :: 0 <= i < |m.answers| ==> WireName(m.answers[i].owner) && |m.answers[i].rdata| < 0x1_0000
    ensures WellFormed(Encode(m), m)
  {
    var buf, qs, answers := Encode(m), EncodeQuestions(m.questions), EncodeAnswers(m.answers);
    assert buf[4] == |m.questions| / 256 && buf[5] == |m.questions| % 256;
    assert buf[6] == |m.answers| / 256 && buf[7] == |m.answers| % 256;
    assert buf == Header(m) + qs + (answers + m.rest);
    EncodedQuestionsLaid(Header(m), m.questions, answers + m.rest);
    EncodedIsLaid(Header(m) + qs, m.answers, m.rest);
  }

  /** The buffer holds the encoding of the labels at `pos`. */
  ghost predicate Written(buf: Bytes, pos: nat, labels: seq<Bytes>) {
    Holds(buf, pos, EncodeParts(Split(Join(labels))))
  }

  function FirstRdata(m: Message): nat
    requires m.answers != []
  {
    HEADER_LEN + QuestionsLength(m.questions) + |m.answers[0].owner| + 10
  }

  /** The usual answer, one PTR record holding an uncompressed name, is read back as that name. */
  lemma PlainAnswerIsRead(buf: Bytes, m: Message, labels: seq<Bytes>)
    requires WellFormed(buf, m) && m.answers[0].rrType == 12
    requires labels != [] && Readable(labels) && Written(buf, FirstRdata(m), labels)
    ensures Parse(buf) == Ok(Join(labels))
  {
    WrittenIsRead(buf, FirstRdata(m), labels);
    FirstRecordNames(buf, m, Join(labels));
  }

  /** The same for a compressed answer: labels, then a pointer to the rest of the name elsewhere in the message. */
  lemma CompressedAnswerIsRead(buf: Bytes, m: Message, prefix: seq<Bytes>, off: nat, suffix: seq<Bytes>)
    requires WellFormed(buf, m) && m.answers[0].rrType == 12
    requires off < 0x4000 && prefix + suffix != [] && Readable(prefix) && Readable(suffix) && Written(buf, off, suffix)
    requires Holds(buf, FirstRdata(m), LabelRun(prefix) + [0xC0 + off / 256, off % 256])
    ensures Parse(buf) == Ok(Join(prefix + suffix))
  {
    CompressedRoundTrip(buf, off, suffix, FirstRdata(m), prefix);
    JoinEndsInLabel(prefix + suffix);
    FirstRecordNames(buf, m, Join(prefix + suffix));
  }

  /** Byte by byte: header with one question and one answer, the question, and the PTR record of an uncompressed name. */
  lemma AnswerBytesAreRead(head: Bytes, question: Bytes, asked: Bytes, owner: Bytes, fixed: Fixed, labels: seq<Bytes>, code: Bytes, rest: Bytes)
    requires |head| == 4 && WireName(question) && |asked| == 4 && WireName(owner)
    requires labels != [] && Readable(labels) && code == EncodeParts(Split(Join(labels))) && |code| < 0x1_0000
    ensures Parse(head + [0, 1, 0, 1, 0, 0, 0, 0] + (question + asked) + (owner + [0, 12] + fixed + [|code| / 256, |code| % 256] + code) + rest) == Ok(Join(labels))
  {
    var q := Question(question, BigEndian(asked, 0), BigEndian(asked, 2));
    var a := Answer(owner, 12, fixed, code);
    var m := Message(BigEndian(head, 0), BigEndian(head, 2), [q], [a], rest);
    TwoNumbers(head);
    TwoNumbers(asked);
    EncodedIs(m, q, a);
    OneAnswerIsRead(m, q, a, labels);
  }

  lemma OneAnswerIsRead(m: Message, q: Question, a: Answer, labels: seq<Bytes>)
    requires m.questions == [q] && m.answers == [a] && WireName(q.name) && WireName(a.owner)
    requires a.rrType == 12 && labels != [] && Readable(labels) && a.rdata == EncodeParts(Split(Join(labels))) && |a.rdata| < 0x1_0000
    ensures Parse(Encode(m)) == Ok(Join(labels))
  {
    EncodedIsWellFormed(m);
    FirstRdataHolds(m, q, a);
    PlainAnswerIsRead(Encode(m), m, labels);
  }

  lemma TwoNumbers(b: Bytes)
    requires |b| == 4
    ensures Bytes16(BigEndian(b, 0)) + Bytes16(BigEndian(b, 2)) == b
  {
  }

  lemma EncodedIs(m: Message, q: Question, a: Answer)
    requires m.questions == [q] && m.answers == [a] && |a.rdata| < 0x1_0000
    ensures Encode(m) == (Bytes16(m.id) + Bytes16(m.flags)) + [0, 1, 0, 1, 0, 0, 0, 0]
      + (q.name + (Bytes16(q.qType) + Bytes16(q.qClass))) + EncodeAnswer(a) + m.rest
  {
    assert m.questions[1..] == [] && m.answers[1..] == [];
    assert Bytes16(1) + Bytes16(1) + [0, 0, 0, 0] == [0, 1, 0, 1, 0, 0, 0, 0];
    assert Header(m) == (Bytes16(m.id) + Bytes16(m.flags)) + [0, 1, 0, 1, 0, 0, 0, 0];
    assert EncodeQuestions(m.questions) == q.name + (Bytes16(q.qType) + Bytes16(q.qClass));
    assert EncodeAnswers(m.answers) == EncodeAnswer(a);
  }

  lemma FirstRdataHolds(m: Message, q: Question, a: Answer)
    requires m.questions == [q] && m.answers == [a] && |a.rdata| < 0x1_0000
    ensures Holds(Encode(m), FirstRdata(m), a.rdata)
  {
    EncodedIs(m, q, a);
    assert m.questions[1..] == [];
    assert QuestionsLength(m.questions) == |q.name| + 4;
    var before := (Bytes16(m.id) + Bytes16(m.flags)) + [0, 1, 0, 1, 0, 0, 0, 0] + (q.name + (Bytes16(q.qType) + Bytes16(q.qClass)));
    var fields := a.owner + Bytes16(a.rrType) + a.fixed + Bytes16(|a.rdata|);
    assert Encode(m) == (before + fields) + a.rdata + m.rest;
  }

  lemma FirstRecordNames(buf: Bytes, m: Message, name: Bytes)
    requires WellFormed(buf, m) && m.answers[0].rrType == PTR && TrimDot(name) == name != []
    requires var r := Decoded(Read(buf, FirstRdata(m), MAX_HOPS)); r.Ok? && r.value.dotted == name
    ensures Parse(buf) == Ok(name)
  {
    ResponseNamesTheHost(buf, m);
    FirstIsNamed(buf, HEADER_LEN + QuestionsLength(m.questions), m.answers, name);
  }

  lemma FirstIsNamed(buf: Bytes, pos: nat, answers: seq<Answer>, name: Bytes)
    requires answers != [] && answers[0].rrType == PTR && TrimDot(name) == name != []
    requires var r := Decoded(Read(buf, pos + |answers[0].owner| + 10, MAX_HOPS)); r.Ok? && r.value.dotted == name
    ensures FirstName(buf, pos, answers) == Ok(name)
  {
  }

  lemma WrittenIsRead(buf: Bytes, pos: nat, labels: seq<Bytes>)
    requires labels != [] && Readable(labels) && Written(buf, pos, labels)
    ensures var r := Decoded(Read(buf, pos, MAX_HOPS)); r.Ok? && r.value.dotted == Join(labels)
    ensures TrimDot(Join(labels)) == Join(labels) != []
  {
    HeldReadsBack(buf, pos, labels, EncodeParts(Split(Join(labels))), MAX_HOPS);
    JoinEndsInLabel(labels);
  }

  lemma {:induction false} JoinEndsInLabel(labels: seq<Bytes>)
    requires labels != [] && Readable(labels)
    ensures Join(labels) != [] && TrimDot(Join(labels)) == Join(labels)
  {
    if |labels| > 1 {
      JoinEndsInLabel(labels[1..]);
      var tail := Join(labels[1..]);
      assert Join(labels)[|Join(labels)| - 1] == tail[|tail| - 1];
    }
  }

  // ----- the query -----

  function Digits(o: Byte): (d: Bytes)
    ensures 1 <= |d| <= 3 && DOT !in d
  {
    var n: int := o;
    if n < 10 then [0x30 + n]
    else if n < 100 then [0x30 + n / 10, 0x30 + n % 10]
    else [0x30 + n / 100, 0x30 + n / 10 % 10, 0x30 + n % 10]
  }

  const IN_ADDR: Bytes := [0x69, 0x6e, 0x2d, 0x61, 0x64, 0x64, 0x72]
  const ARPA: Bytes := [0x61, 0x72, 0x70, 0x61]

  function ReverseLabels(o0: Byte, o1: Byte, o2: Byte, o3: Byte): seq<Bytes> {
    [Digits(o3), Digits(o2), Digits(o1), Digits(o0), IN_ADDR, ARPA]
  }

  const QUERY_HEADER: Bytes := [0x00, 0x00, 0x00, 0x00, 0x00, 0x01, 0x00, 0x00, 0x00, 0x00, 0x00, 0x00]
  const QUERY_TAIL: Bytes := [0x00, 0x0c, 0x80, 0x01]

  /** What decimal digits write. */
  function Value(digits: Bytes): int {
    if digits == [] then 0 else 10 * Value(digits[..|digits| - 1]) + (digits[|digits| - 1] as int - 0x30)
  }

  ghost predicate Decimal(digits: Bytes, o: Byte) {
    && digits != [] && (forall i :: 0 <= i < |digits| ==> 0x30 <= digits[i] <= 0x39)
    && Value(digits) == o && (digits[0] == 0x30 ==> |digits| == 1)
  }

  lemma ValueSnoc(digits: Bytes, last: Byte)
    ensures Value(digits + [last]) == 10 * Value(digits) + (last as int - 0x30)
  {
    assert (digits + [last])[..|digits|] == digits;
  }

  lemma DigitsWrite(o: Byte)
    ensures Decimal(Digits(o), o)
  {
    var n: int := o;
    if n < 10 {
      ValueSnoc([], 0x30 + n);
      assert [] + [0x30 + n] == Digits(o);
    } else if n < 100 {
      ValueSnoc([], 0x30 + n / 10);
      ValueSnoc([0x30 + n / 10], 0x30 + n % 10);
      assert [] + [0x30 + n / 10] == [0x30 + n / 10];
      assert [0x30 + n / 10] + [0x30 + n % 10] == Digits(o);
    } else {
      ValueSnoc([], 0x30 + n / 100);
      ValueSnoc([0x30 + n / 100], 0x30 + n / 10 % 10);
      ValueSnoc([0x30 + n / 100, 0x30 + n / 10 % 10], 0x30 + n % 10);
      assert [] + [0x30 + n / 100] == [0x30 + n / 100];
      assert [0x30 + n / 100] + [0x30 + n / 10 % 10] == [0x30 + n / 100, 0x30 + n / 10 % 10];
      assert [0x30 + n / 100, 0x30 + n / 10 % 10] + [0x30 + n % 10] == Digits(o);
      assert n == 10 * (n / 10) + n % 10 && n / 10 == 10 * (n / 100) + n / 10 % 10;
    }
  }

  lemma QueryReads(labels: seq<Bytes>)
    requires Readable(labels)
    ensures var buf := QUERY_HEADER + EncodeParts(Split(Join(labels))) + QUERY_TAIL;
      && Read(buf, HEADER_LEN, MAX_HOPS) == Ok((labels, |buf| - 4))
      && SkipQuestions(buf, HEADER_LEN, 1) == Ok(|buf|)
  {
    LabelsReadBack(QUERY_HEADER, labels, QUERY_TAIL, MAX_HOPS);
    RoundTrip(QUERY_HEADER, labels, QUERY_TAIL);
  }

  /** `mdnsReverseRequest` for the address of the four octets: one question, which asks for exactly that name. */
  method MdnsReverseRequest(o0: Byte, o1: Byte, o2: Byte, o3: Byte) returns (buf: Bytes)
    ensures |buf| >= 16 && buf[..12] == [0x00, 0x00, 0x00, 0x00, 0x00, 0x01, 0x00, 0x00, 0x00, 0x00, 0x00, 0x00]
    ensures BigEndian(buf, 4) == 1 && BigEndian(buf, 6) == 0
    ensures Read(buf, 12, MAX_HOPS) == Ok((ReverseLabels(o0, o1, o2, o3), |buf| - 4))
    ensures var labels := ReverseLabels(o0, o1, o2, o3);
      && |labels| == 6 && Decimal(labels[0], o3) && Decimal(labels[1], o2) && Decimal(labels[2], o1) && Decimal(labels[3], o0)
      && labels[4] == [0x69, 0x6e, 0x2d, 0x61, 0x64, 0x64, 0x72] && labels[5] == [0x61, 0x72, 0x70, 0x61]
    ensures SkipQuestions(buf, 12, 1) == Ok(|buf|)
    ensures buf[|buf| - 4..] == [0x00, 0x0c, 0x80, 0x01]
  {
    buf := QUERY_HEADER;
    var labels := ReverseLabels(o0, o1, o2, o3);
    buf := AppendDNSName(buf, Join(labels));
    TwoFields(buf);
    buf := buf + [0x00, 0x0c];
    buf := buf + [0x80, 0x01];
    QueryCounts(EncodeParts(Split(Join(labels))));
    QueryReads(labels);
    DigitsWrite(o0);
    DigitsWrite(o1);
    DigitsWrite(o2);
    DigitsWrite(o3);
  }

  lemma TwoFields(named: Bytes)
    ensures named + [0x00, 0x0c] + [0x80, 0x01] == named + QUERY_TAIL
  {
  }

  lemma QueryCounts(name: Bytes)
    ensures var buf := QUERY_HEADER + name + QUERY_TAIL;
      |buf| >= HEADER_LEN + 4 && BigEndian(buf, 4) == 1 && BigEndian(buf, 6) == 0 && buf[|buf| - 4..] == QUERY_TAIL && buf[..12] == QUERY_HEADER
  {
    var buf := QUERY_HEADER + name + QUERY_TAIL;
    assert buf[4] == QUERY_HEADER[4] && buf[5] == QUERY_HEADER[5] && buf[6] == QUERY_HEADER[6] && buf[7] == QUERY_HEADER[7];
  }
}
