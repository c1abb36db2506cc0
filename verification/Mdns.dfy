/** The mDNS query encoder and response parser of services/discovery/mdns.go (wire format of RFC 1035). */
module Mdns {
  import opened Bytes

  const DOT: Byte := 46
  const PTR := 12

  // ----- The parser -----

  /** The position after the name at pos. */
  function Skip(data: Bytes, pos: nat): (r: nat)
    ensures r >= pos
    decreases |data| - pos
  {
    if pos >= |data| then pos
    else if data[pos] == 0 then pos + 1
    else if data[pos] >= 0xC0 then pos + 2
    else Skip(data, pos + data[pos] + 1)
  }

  method SkipDNSName(data: Bytes, start: nat) returns (pos: nat)
    ensures pos == Skip(data, start)
  {
    pos := start;
    while pos < |data|
      invariant Skip(data, pos) == Skip(data, start)
      decreases |data| - pos
    {
      if data[pos] == 0 { return pos + 1; }
      if data[pos] >= 0xC0 { return pos + 2; }
      pos := pos + data[pos] + 1;
    }
  }

  function U16At(data: Bytes, pos: nat): nat
    requires pos + 2 <= |data|
  {
    data[pos] as int * 256 + data[pos + 1]
  }

  /** The labels between p and end, up to a terminator, a pointer or a label that does not fit. */
  function NameParts(data: Bytes, p: nat, end: nat): seq<Bytes>
    requires end <= |data|
    decreases end - p
  {
    if p >= end || data[p] == 0 || data[p] >= 0xC0 || p + 1 + data[p] > end then []
    else [data[p + 1..p + 1 + data[p]]] + NameParts(data, p + 1 + data[p], end)
  }

  /** strings.Join with a dot. */
  function Join(parts: seq<Bytes>): Bytes {
    if parts == [] then []
    else if |parts| == 1 then parts[0]
    else parts[0] + [DOT] + Join(parts[1..])
  }

  function HostOf(data: Bytes, pos: nat, rrtype: nat, rdlength: nat): seq<Bytes> {
    if rrtype == PTR && pos + rdlength <= |data| then
      var parts := NameParts(data, pos, pos + rdlength);
      if parts != [] then [Join(parts)] else []
    else []
  }

  function AfterQuestions(data: Bytes, pos: nat, n: nat): nat
    decreases n
  {
    if n == 0 || pos >= |data| then pos else AfterQuestions(data, Skip(data, pos) + 4, n - 1)
  }

  function Hosts(data: Bytes, pos: nat, n: nat): seq<Bytes>
    decreases n
  {
    if n == 0 || pos >= |data| then []
    else
      var at := Skip(data, pos);
      if at + 10 > |data| then []
      else
        var rdlength := U16At(data, at + 8);
        HostOf(data, at + 10, U16At(data, at), rdlength) + Hosts(data, at + 10 + rdlength, n - 1)
  }

  function Parse(data: Bytes): seq<Bytes> {
    if |data| < 12 then []
    else Hosts(data, AfterQuestions(data, 12, U16At(data, 4)), U16At(data, 6))
  }

  /** The inner loop of parseMDNSResponse over one PTR target. */
  method ReadParts(data: Bytes, pos: nat, end: nat) returns (parts: seq<Bytes>)
    requires end <= |data|
    ensures parts == NameParts(data, pos, end)
  {
    hide NameParts;
    parts := [];
    var p := pos;
    ghost var all := NameParts(data, pos, end);
    while p < end
      invariant parts + NameParts(data, p, end) == all
      decreases end - p
    {
      NamePartsStep(data, p, end);
      if data[p] == 0 { break; }
      if data[p] >= 0xC0 { break; }
      var length := data[p];
      if p + 1 + length > end { break; }
      Regroup(parts, [data[p + 1..p + 1 + length]], NameParts(data, p + 1 + length, end));
      parts := parts + [data[p + 1..p + 1 + length]];
      p := p + 1 + length;
    }
    NamePartsEnd(data, p, end);
  }

  lemma NamePartsEnd(data: Bytes, p: nat, end: nat)
    requires end <= |data|
    ensures p >= end ==> NameParts(data, p, end) == []
  {
  }

  lemma NamePartsStep(data: Bytes, p: nat, end: nat)
    requires p < end <= |data|
    ensures NameParts(data, p, end)
         == if data[p] == 0 || data[p] >= 0xC0 || p + 1 + data[p] > end then []
            else [data[p + 1..p + 1 + data[p]]] + NameParts(data, p + 1 + data[p], end)
  {
  }

  /** The question loop of parseMDNSResponse. */
  method SkipQuestions(data: Bytes, start: nat, count: nat) returns (pos: nat)
    ensures pos == AfterQuestions(data, start, count)
  {
    hide Skip;
    pos := start;
    var i := 0;
    while i < count && pos < |data|
      invariant 0 <= i <= count && AfterQuestions(data, pos, count - i) == AfterQuestions(data, start, count)
    {
      pos := SkipDNSName(data, pos);
      pos := pos + 4;
      i := i + 1;
    }
  }

  /** The PTR branch of the answer loop. */
  method ReadHost(data: Bytes, pos: nat, rrtype: nat, rdlength: nat) returns (host: seq<Bytes>)
    ensures host == HostOf(data, pos, rrtype, rdlength)
  {
    hide NameParts, Join;
    host := [];
    if rrtype == PTR && pos + rdlength <= |data| {
      var parts := ReadParts(data, pos, pos + rdlength);
      if |parts| > 0 {
        host := [Join(parts)];
      }
    }
  }

  /** The answer loop of parseMDNSResponse. */
  method ReadHosts(data: Bytes, start: nat, count: nat) returns (hosts: seq<Bytes>)
    ensures hosts == Hosts(data, start, count)
  {
    hide Skip, HostOf, U16At;
    hosts := [];
    var pos: nat, i: nat := start, 0;
    ghost var all := Hosts(data, start, count);
    while i < count && pos < |data|
      invariant 0 <= i <= count && hosts + Hosts(data, pos, count - i) == all
    {
      var at := SkipDNSName(data, pos);
      if at + 10 > |data| { break; }
      var rrtype := U16At(data, at);
      var rdlength := U16At(data, at + 8);
      var host := ReadHost(data, at + 10, rrtype, rdlength);
      Regroup(hosts, host, Hosts(data, at + 10 + rdlength, count - i - 1));
      hosts := hosts + host;
      pos := at + 10 + rdlength;
      i := i + 1;
    }
  }

  /** parseMDNSResponse: total on every byte string. */
  method ParseMDNSResponse(data: Bytes) returns (hosts: seq<Bytes>)
    ensures hosts == Parse(data)
  {
    if |data| < 12 { return []; }
    var pos := SkipQuestions(data, 12, U16At(data, 4));
    hosts := ReadHosts(data, pos, U16At(data, 6));
  }

  // ----- The wire format of RFC 1035, sections 3.1 and 4.1 -----

  /** How a name ends: the root label, or a compression pointer. */
  datatype Ending = Root | Pointer(hi: Byte, lo: Byte)

  datatype Name = Name(labels: seq<Bytes>, ending: Ending)

  predicate LegalName(n: Name) {
    && (forall k :: 0 <= k < |n.labels| ==> 1 <= |n.labels[k]| <= 63)
    && (n.ending.Pointer? ==> n.ending.hi >= 0xC0)
  }

  function EncodeLabels(labels: seq<Bytes>): Bytes
    requires forall k :: 0 <= k < |labels| ==> |labels[k]| < 256
  {
    if labels == [] then [] else [|labels[0]|] + labels[0] + EncodeLabels(labels[1..])
  }

  function EncodeEnding(e: Ending): Bytes {
    match e
    case Root => [0]
    case Pointer(hi, lo) => [hi, lo]
  }

  function EncodeName(n: Name): Bytes
    requires LegalName(n)
  {
    EncodeLabels(n.labels) + EncodeEnding(n.ending)
  }

  function U16(n: nat): Bytes
    requires n < 65536
  {
    [n / 256, n % 256]
  }

  /** A question: its name and four bytes of type and class. */
  datatype Question = Question(name: Name, typeAndClass: Bytes)

  /** A resource record; between its type and its data come six bytes of class and TTL. */
  datatype Record = Ptr(owner: Name, classAndTtl: Bytes, target: Name)
                  | Other(owner: Name, rrtype: nat, classAndTtl: Bytes, rdata: Bytes)

  predicate LegalQuestion(q: Question) {
    LegalName(q.name) && |q.typeAndClass| == 4
  }

  predicate LegalRecord(r: Record) {
    && LegalName(r.owner) && |r.classAndTtl| == 6
    && match r
       case Ptr(_, _, target) => LegalName(target) && |EncodeName(target)| < 65536
       case Other(_, rrtype, _, rdata) => rrtype < 65536 && rrtype != PTR && |rdata| < 65536
  }

  function TypeOf(r: Record): nat {
    if r.Ptr? then PTR else r.rrtype
  }

  function DataOf(r: Record): Bytes
    requires LegalRecord(r)
  {
    if r.Ptr? then EncodeName(r.target) else r.rdata
  }

  function EncodeRecord(r: Record): Bytes
    requires LegalRecord(r)
  {
    EncodeName(r.owner) + (U16(TypeOf(r)) + r.classAndTtl + U16(|DataOf(r)|) + DataOf(r))
  }

  function EncodeQuestions(qs: seq<Question>): Bytes
    requires forall k :: 0 <= k < |qs| ==> LegalQuestion(qs[k])
  {
    if qs == [] then []
    else
      assert LegalQuestion(qs[0]);
      EncodeName(qs[0].name) + qs[0].typeAndClass + EncodeQuestions(qs[1..])
  }

  function EncodeRecords(rs: seq<Record>): Bytes
    requires forall k :: 0 <= k < |rs| ==> LegalRecord(rs[k])
  {
    if rs == [] then [] else EncodeRecord(rs[0]) + EncodeRecords(rs[1..])
  }

  /** head is the ID and flags, tail the other two counts; rest is whatever follows the answers. */
  datatype Message = Message(head: Bytes, tail: Bytes, questions: seq<Question>, answers: seq<Record>, rest: Bytes)

  predicate LegalMessage(m: Message) {
    && |m.head| == 4 && |m.tail| == 4 && |m.questions| < 65536 && |m.answers| < 65536
    && (forall k :: 0 <= k < |m.questions| ==> LegalQuestion(m.questions[k]))
    && (forall k :: 0 <= k < |m.answers| ==> LegalRecord(m.answers[k]))
  }

  function EncodeMessage(m: Message): Bytes
    requires LegalMessage(m)
  {
    m.head + U16(|m.questions|) + U16(|m.answers|) + m.tail
    + (EncodeQuestions(m.questions) + (EncodeRecords(m.answers) + m.rest))
  }

  /** The dot-joined labels, if there are any. */
  function Host(labels: seq<Bytes>): seq<Bytes> {
    if labels == [] then [] else [Join(labels)]
  }

  /** The labels in front of the ending of a PTR target. */
  function CutHost(r: Record): seq<Bytes> {
    if r.Ptr? then Host(r.target.labels) else []
  }

  function Targets(rs: seq<Record>): seq<Bytes> {
    if rs == [] then [] else CutHost(rs[0]) + Targets(rs[1..])
  }

  // ----- Decoding what was encoded -----

  lemma Parts(data: Bytes, pos: nat, a: Bytes, b: Bytes)
    requires OccursAt(data, a + b, pos)
    ensures OccursAt(data, a, pos) && OccursAt(data, b, pos + |a|)
  {
    var s := data[pos..pos + |a + b|];
    assert s[..|a|] == a && s[|a|..] == b;
    assert s[..|a|] == data[pos..pos + |a|] && s[|a|..] == data[pos + |a|..pos + |a| + |b|];
  }

  lemma SitsInside(data: Bytes, pos: nat, part: Bytes)
    requires OccursAt(data, part, pos) && part != []
    ensures pos < |data|
  {
  }

  lemma ByteAt(data: Bytes, pos: nat, part: Bytes, k: nat)
    requires OccursAt(data, part, pos) && k < |part|
    ensures data[pos + k] == part[k]
  {
    assert data[pos..pos + |part|][k] == part[k];
  }

  /** The first label of a name and what follows it. */
  lemma FirstLabel(data: Bytes, pos: nat, n: Name)
    requires LegalName(n) && n.labels != [] && OccursAt(data, EncodeName(n), pos)
    ensures var l, n' := n.labels[0], Name(n.labels[1..], n.ending);
            LegalName(n') && |EncodeName(n)| == 1 + |l| + |EncodeName(n')|
            && data[pos] == |l| && OccursAt(data, l, pos + 1) && OccursAt(data, EncodeName(n'), pos + 1 + |l|)
  {
    hide *;
    var l := n.labels[0];
    var tail := EncodeCut(n);
    Parts(data, pos, [|l|], l + tail);
    ByteAt(data, pos, [|l|], 0);
    Parts(data, pos + 1, l, tail);
  }

  /** A name without its first label. */
  lemma EncodeCut(n: Name) returns (tail: Bytes)
    requires LegalName(n) && n.labels != []
    ensures var l, n' := n.labels[0], Name(n.labels[1..], n.ending);
            LegalName(n') && |l| < 64 && tail == EncodeName(n') && EncodeName(n) == [|l|] + (l + tail)
  {
    var l, n' := n.labels[0], Name(n.labels[1..], n.ending);
    tail := EncodeName(n');
    var head, rest, ending := [|l|], EncodeLabels(n'.labels), EncodeEnding(n.ending);
    assert EncodeLabels(n.labels) == head + l + rest && tail == rest + ending;
    assert head + l + rest + ending == head + (l + (rest + ending));
  }

  /** What stands where a name without labels begins. */
  lemma EndingAt(data: Bytes, pos: nat, n: Name)
    requires LegalName(n) && n.labels == [] && OccursAt(data, EncodeName(n), pos)
    ensures match n.ending
            case Root => |EncodeName(n)| == 1 && pos < |data| && data[pos] == 0
            case Pointer(hi, lo) =>
              |EncodeName(n)| == 2 && pos + 1 < |data| && data[pos] == hi >= 0xC0 && data[pos + 1] == lo
  {
    assert EncodeName(n) == EncodeEnding(n.ending);
    ByteAt(data, pos, EncodeName(n), 0);
    if n.ending.Pointer? {
      ByteAt(data, pos, EncodeName(n), 1);
    }
  }

  /** The first label lies inside the name, which lies inside the data. */
  lemma LabelFits(data: Bytes, pos: nat, n: Name)
    requires LegalName(n) && n.labels != [] && OccursAt(data, n.labels[0], pos + 1)
    ensures var l := n.labels[0];
            1 <= |l| < 64 && pos + 1 + |l| <= |data| && data[pos + 1..pos + 1 + |l|] == l
  {
  }

  lemma {:induction false} SkipName(data: Bytes, pos: nat, n: Name)
    requires LegalName(n) && OccursAt(data, EncodeName(n), pos)
    ensures Skip(data, pos) == pos + |EncodeName(n)|
    decreases |n.labels|
  {
    hide EncodeName, OccursAt;
    if n.labels == [] {
      EndingAt(data, pos, n);
    } else {
      FirstLabel(data, pos, n);
      LabelFits(data, pos, n);
      SkipName(data, pos + 1 + |n.labels[0]|, Name(n.labels[1..], n.ending));
    }
  }

  lemma {:induction false} PartsOfName(data: Bytes, pos: nat, n: Name)
    requires LegalName(n) && OccursAt(data, EncodeName(n), pos)
    ensures NameParts(data, pos, pos + |EncodeName(n)|) == n.labels
    decreases |n.labels|
  {
    hide EncodeName, OccursAt;
    if n.labels == [] {
      EndingAt(data, pos, n);
    } else {
      FirstLabel(data, pos, n);
      LabelFits(data, pos, n);
      var l, n' := n.labels[0], Name(n.labels[1..], n.ending);
      PartsOfName(data, pos + 1 + |l|, n');
      assert n.labels == [l] + n'.labels;
    }
  }

  lemma {:induction false} QuestionsSkipped(data: Bytes, pos: nat, qs: seq<Question>)
    requires forall k :: 0 <= k < |qs| ==> LegalQuestion(qs[k])
    requires OccursAt(data, EncodeQuestions(qs), pos)
    ensures AfterQuestions(data, pos, |qs|) == pos + |EncodeQuestions(qs)|
    decreases |qs|
  {
    hide Skip, OccursAt, EncodeName, LegalName;
    if qs != [] {
      assert LegalQuestion(qs[0]);
      var name, rest := EncodeName(qs[0].name), EncodeQuestions(qs[1..]);
      assert EncodeQuestions(qs) == name + (qs[0].typeAndClass + rest);
      Parts(data, pos, name, qs[0].typeAndClass + rest);
      Parts(data, pos + |name|, qs[0].typeAndClass, rest);
      SkipName(data, pos, qs[0].name);
      SitsInside(data, pos + |name|, qs[0].typeAndClass);
      QuestionsSkipped(data, pos + |name| + 4, qs[1..]);
    }
  }

  lemma U16Sits(data: Bytes, pos: nat, n: nat)
    requires n < 65536 && OccursAt(data, U16(n), pos)
    ensures U16At(data, pos) == n
  {
    ByteAt(data, pos, U16(n), 0);
    ByteAt(data, pos, U16(n), 1);
  }

  /** The fixed part of a record and its data, after the owner name. */
  lemma RecordFields(data: Bytes, at: nat, r: Record)
    requires LegalRecord(r)
    requires OccursAt(data, U16(TypeOf(r)) + r.classAndTtl + U16(|DataOf(r)|) + DataOf(r), at)
    ensures at + 10 + |DataOf(r)| <= |data|
    ensures U16At(data, at) == TypeOf(r) && U16At(data, at + 8) == |DataOf(r)| && OccursAt(data, DataOf(r), at + 10)
  {
    var t, c, l, d := U16(TypeOf(r)), r.classAndTtl, U16(|DataOf(r)|), DataOf(r);
    Parts(data, at, t + c + l, d);
    Parts(data, at, t + c, l);
    Parts(data, at, t, c);
    U16Sits(data, at, TypeOf(r));
    U16Sits(data, at + 8, |d|);
  }

  lemma HostRead(data: Bytes, pos: nat, r: Record)
    requires LegalRecord(r) && OccursAt(data, DataOf(r), pos)
    ensures HostOf(data, pos, TypeOf(r), |DataOf(r)|) == CutHost(r)
  {
    if r.Ptr? {
      PartsOfName(data, pos, r.target);
    }
  }

  /** One record: where the next one starts, and the host it yields. */
  lemma RecordRead(data: Bytes, pos: nat, r: Record)
    requires LegalRecord(r) && OccursAt(data, EncodeRecord(r), pos)
    ensures var at := Skip(data, pos);
            at + 10 <= |data| && pos < |data|
            && at + 10 + U16At(data, at + 8) == pos + |EncodeRecord(r)|
            && HostOf(data, at + 10, U16At(data, at), U16At(data, at + 8)) == CutHost(r)
  {
    hide Skip, HostOf, OccursAt, EncodeName, LegalName, U16At;
    var owner := EncodeName(r.owner);
    var body := U16(TypeOf(r)) + r.classAndTtl + U16(|DataOf(r)|) + DataOf(r);
    Parts(data, pos, owner, body);
    SkipName(data, pos, r.owner);
    RecordFields(data, pos + |owner|, r);
    HostRead(data, pos + |owner| + 10, r);
  }

  lemma {:induction false} RecordsRead(data: Bytes, pos: nat, rs: seq<Record>)
    requires forall k :: 0 <= k < |rs| ==> LegalRecord(rs[k])
    requires OccursAt(data, EncodeRecords(rs), pos)
    ensures Hosts(data, pos, |rs|) == Targets(rs)
    decreases |rs|
  {
    hide Skip, HostOf, OccursAt, U16At, EncodeRecord, LegalRecord;
    if rs != [] {
      Parts(data, pos, EncodeRecord(rs[0]), EncodeRecords(rs[1..]));
      RecordRead(data, pos, rs[0]);
      RecordsRead(data, pos + |EncodeRecord(rs[0])|, rs[1..]);
    }
  }

  /** Where the parts of a message are. */
  lemma MessageParts(m: Message)
    requires LegalMessage(m)
    ensures var data, qs := EncodeMessage(m), EncodeQuestions(m.questions);
            && |data| >= 12 && U16At(data, 4) == |m.questions| && U16At(data, 6) == |m.answers|
            && OccursAt(data, qs, 12) && OccursAt(data, EncodeRecords(m.answers), 12 + |qs|)
  {
    hide *;
    PartsLegal(m);
    SizesLegal(m);
    MessageIs(m);
    var data, qs, rs := EncodeMessage(m), EncodeQuestions(m.questions), EncodeRecords(m.answers);
    WholeOccurs(data);
    HeaderParts(data, m.head, |m.questions|, |m.answers|, m.tail, qs + (rs + m.rest));
    Parts(data, 12, qs, rs + m.rest);
    Parts(data, 12 + |qs|, rs, m.rest);
  }

  lemma SizesLegal(m: Message)
    requires LegalMessage(m)
    ensures |m.head| == 4 && |m.tail| == 4 && |m.questions| < 65536 && |m.answers| < 65536
  {
  }

  lemma MessageIs(m: Message)
    requires LegalMessage(m)
    ensures EncodeMessage(m) == m.head + U16(|m.questions|) + U16(|m.answers|) + m.tail
                                + (EncodeQuestions(m.questions) + (EncodeRecords(m.answers) + m.rest))
  {
    hide EncodeQuestions, EncodeRecords, U16;
  }

  lemma HeaderParts(data: Bytes, head: Bytes, qd: nat, an: nat, tail: Bytes, rest: Bytes)
    requires |head| == 4 && |tail| == 4 && qd < 65536 && an < 65536
    requires OccursAt(data, head + U16(qd) + U16(an) + tail + rest, 0)
    ensures |data| >= 12 && U16At(data, 4) == qd && U16At(data, 6) == an && OccursAt(data, rest, 12)
  {
    var header := head + U16(qd) + U16(an) + tail;
    assert |header| == 12;
    hide OccursAt, U16At;
    Parts(data, 0, header, rest);
    Parts(data, 0, head + U16(qd) + U16(an), tail);
    Parts(data, 0, head + U16(qd), U16(an));
    Parts(data, 0, head, U16(qd));
    U16Sits(data, 4, qd);
    U16Sits(data, 6, an);
    OccursFits(data, header, 0);
  }

  lemma WholeOccurs(data: Bytes)
    ensures OccursAt(data, data, 0)
  {
    assert data[0..|data|] == data;
  }

  lemma OccursFits(data: Bytes, part: Bytes, pos: int)
    requires OccursAt(data, part, pos)
    ensures 0 <= pos && pos + |part| <= |data|
  {
  }

  /** The parser returns, of every legal message, the labels of each PTR answer's target up to a pointer, in order. */
  lemma ParseEncoded(m: Message)
    requires LegalMessage(m)
    ensures Parse(EncodeMessage(m)) == Targets(m.answers)
  {
    hide *;
    MessageParts(m);
    PartsLegal(m);
    ParseIs(EncodeMessage(m));
    QuestionsSkipped(EncodeMessage(m), 12, m.questions);
    RecordsRead(EncodeMessage(m), 12 + |EncodeQuestions(m.questions)|, m.answers);
  }

  lemma ParseIs(data: Bytes)
    requires |data| >= 12
    ensures Parse(data) == Hosts(data, AfterQuestions(data, 12, U16At(data, 4)), U16At(data, 6))
  {
  }

  lemma PartsLegal(m: Message)
    requires LegalMessage(m)
    ensures forall k :: 0 <= k < |m.questions| ==> LegalQuestion(m.questions[k])
    ensures forall k :: 0 <= k < |m.answers| ==> LegalRecord(m.answers[k])
  {
  }

  // ----- Compression: section 4.1.4 of RFC 1035 -----

  datatype Option<T> = None | Some(value: T)

  /** The labels of the name at pos, following pointers to names that begin before bound. */
  function Resolve(data: Bytes, pos: nat, bound: nat): Option<seq<Bytes>>
    decreases bound, |data| - pos
  {
    if pos >= |data| || 64 <= data[pos] < 0xC0 then None
    else if data[pos] == 0 then Some([])
    else if data[pos] >= 0xC0 then
      if pos + 2 <= |data| then Follow(data, data[pos], data[pos + 1], bound) else None
    else if pos + 1 + data[pos] > |data| then None
    else
      var rest := Resolve(data, pos + 1 + data[pos], bound);
      if rest.None? then None else Some([data[pos + 1..pos + 1 + data[pos]]] + rest.value)
  }

  /** A pointer holds an offset of fourteen bits, which has to lie before the name it is part of. */
  function Follow(data: Bytes, hi: Byte, lo: Byte, bound: nat): Option<seq<Bytes>>
    requires hi >= 0xC0
    decreases bound, -1
  {
    var at := (hi - 0xC0) * 256 + lo;
    if at < bound then Resolve(data, at, at) else None
  }

  /** What the ending of a name stands for. */
  function Suffix(data: Bytes, e: Ending, bound: nat): Option<seq<Bytes>>
    requires e.Pointer? ==> e.hi >= 0xC0
  {
    match e
    case Root => Some([])
    case Pointer(hi, lo) => Follow(data, hi, lo, bound)
  }

  lemma {:induction false} ResolveName(data: Bytes, pos: nat, n: Name, bound: nat)
    requires LegalName(n) && OccursAt(data, EncodeName(n), pos)
    ensures var suffix := Suffix(data, n.ending, bound);
            Resolve(data, pos, bound) == if suffix.None? then None else Some(n.labels + suffix.value)
    decreases |n.labels|
  {
    hide Follow, EncodeName, OccursAt;
    if n.labels == [] {
      EndingAt(data, pos, n);
      if Suffix(data, n.ending, bound).Some? {
        assert n.labels + Suffix(data, n.ending, bound).value == Suffix(data, n.ending, bound).value;
      }
    } else {
      FirstLabel(data, pos, n);
      LabelFits(data, pos, n);
      var l, n' := n.labels[0], Name(n.labels[1..], n.ending);
      ResolveName(data, pos + 1 + |l|, n', bound);
      assert n.labels == [l] + n'.labels;
      if Suffix(data, n.ending, bound).Some? {
        Regroup([l], n'.labels, Suffix(data, n.ending, bound).value);
      }
    }
  }

  /** Where the target of a PTR record at pos begins. */
  function TargetPos(pos: nat, r: Record): nat
    requires LegalRecord(r)
  {
    pos + |EncodeName(r.owner)| + 10
  }

  /** The name of a PTR target under the standard, if it is one. */
  function TargetName(data: Bytes, pos: nat, r: Record): Option<seq<Bytes>>
    requires LegalRecord(r)
  {
    if r.Ptr? then Resolve(data, TargetPos(pos, r), TargetPos(pos, r)) else Some([])
  }

  /** A PTR target ends in the root, or in a pointer to the root name. */
  predicate EndsAtRoot(data: Bytes, pos: nat, r: Record)
    requires LegalRecord(r)
  {
    r.Ptr? ==> Suffix(data, r.target.ending, TargetPos(pos, r)) == Some([])
  }

  /** Every PTR target is a name in the sense of the standard. */
  predicate Resolvable(data: Bytes, pos: nat, rs: seq<Record>)
    requires forall k :: 0 <= k < |rs| ==> LegalRecord(rs[k])
    decreases |rs|
  {
    rs == [] || (TargetName(data, pos, rs[0]).Some? && Resolvable(data, pos + |EncodeRecord(rs[0])|, rs[1..]))
  }

  /** The hosts that the PTR records announce under the standard. */
  function FullTargets(data: Bytes, pos: nat, rs: seq<Record>): seq<Bytes>
    requires (forall k :: 0 <= k < |rs| ==> LegalRecord(rs[k])) && Resolvable(data, pos, rs)
    decreases |rs|
  {
    if rs == [] then []
    else Host(TargetName(data, pos, rs[0]).value) + FullTargets(data, pos + |EncodeRecord(rs[0])|, rs[1..])
  }

  predicate Uncompressed(data: Bytes, pos: nat, rs: seq<Record>)
    requires forall k :: 0 <= k < |rs| ==> LegalRecord(rs[k])
    decreases |rs|
  {
    rs == [] || (EndsAtRoot(data, pos, rs[0]) && Uncompressed(data, pos + |EncodeRecord(rs[0])|, rs[1..]))
  }

  lemma {:induction false} JoinAppend(a: seq<Bytes>, b: seq<Bytes>)
    requires a != [] && b != []
    ensures Join(a + b) == Join(a) + [DOT] + Join(b)
  {
    assert (a + b)[1..] == a[1..] + b;
    if |a| > 1 {
      JoinAppend(a[1..], b);
    }
  }

  /** Cutting a name off at its pointer loses labels unless the pointer stands for the root. */
  lemma CutName(labels: seq<Bytes>, suffix: seq<Bytes>)
    ensures |Host(labels)| <= |Host(labels + suffix)|
    ensures Host(labels) == Host(labels + suffix) <==> suffix == []
  {
    if suffix == [] {
      assert labels + suffix == labels;
    } else if labels != [] {
      JoinAppend(labels, suffix);
      assert |Join(labels)| < |Join(labels + suffix)|;
    }
  }

  lemma TargetRead(data: Bytes, pos: nat, r: Record)
    requires LegalRecord(r) && OccursAt(data, EncodeRecord(r), pos) && r.Ptr?
    ensures OccursAt(data, EncodeName(r.target), TargetPos(pos, r))
  {
    hide OccursAt, EncodeName, LegalName;
    var owner := EncodeName(r.owner);
    Parts(data, pos, owner, U16(TypeOf(r)) + r.classAndTtl + U16(|DataOf(r)|) + DataOf(r));
    RecordFields(data, pos + |owner|, r);
  }

  lemma {:induction false} TargetsCut(data: Bytes, pos: nat, rs: seq<Record>)
    requires (forall k :: 0 <= k < |rs| ==> LegalRecord(rs[k])) && Resolvable(data, pos, rs)
    requires OccursAt(data, EncodeRecords(rs), pos)
    ensures |Targets(rs)| <= |FullTargets(data, pos, rs)|
    ensures Targets(rs) == FullTargets(data, pos, rs) <==> Uncompressed(data, pos, rs)
    decreases |rs|
  {
    hide OccursAt, EncodeRecord, LegalRecord, CutHost, Host, TargetName, EndsAtRoot;
    if rs != [] {
      var r, next := rs[0], pos + |EncodeRecord(rs[0])|;
      assert LegalRecord(r);
      Parts(data, pos, EncodeRecord(r), EncodeRecords(rs[1..]));
      TargetsCut(data, next, rs[1..]);
      TargetCut(data, pos, r);
      Heads(CutHost(r), Targets(rs[1..]), Host(TargetName(data, pos, r).value), FullTargets(data, next, rs[1..]));
    }
  }

  lemma TargetCut(data: Bytes, pos: nat, r: Record)
    requires LegalRecord(r) && OccursAt(data, EncodeRecord(r), pos) && TargetName(data, pos, r).Some?
    ensures |CutHost(r)| <= |Host(TargetName(data, pos, r).value)|
    ensures CutHost(r) == Host(TargetName(data, pos, r).value) <==> EndsAtRoot(data, pos, r)
  {
    hide OccursAt, EncodeName, EncodeRecord, Resolve, Join, Follow;
    if r.Ptr? {
      var at := TargetPos(pos, r);
      TargetRead(data, pos, r);
      ResolveName(data, at, r.target, at);
      CutName(r.target.labels, Suffix(data, r.target.ending, at).value);
    }
  }

  lemma Heads(a: seq<Bytes>, x: seq<Bytes>, b: seq<Bytes>, y: seq<Bytes>)
    requires |a| <= |b| && |x| <= |y|
    ensures a + x == b + y <==> a == b && x == y
  {
    if a + x == b + y {
      assert a == (a + x)[..|a|] && b == (b + y)[..|b|] && x == (a + x)[|a|..] && y == (b + y)[|b|..];
    }
  }

  /** Where the answers of a message begin. */
  function AnswersPos(m: Message): nat
    requires LegalMessage(m)
  {
    12 + |EncodeQuestions(m.questions)|
  }

  /**
   The exact condition: of a message whose PTR targets are names, the parser returns the announced hosts if and only
   if every target ends in the root or in a pointer to the root name; otherwise it cuts names off or loses them.
   */
  lemma ParseExact(m: Message)
    requires LegalMessage(m) && Resolvable(EncodeMessage(m), AnswersPos(m), m.answers)
    ensures Parse(EncodeMessage(m)) == FullTargets(EncodeMessage(m), AnswersPos(m), m.answers)
            <==> Uncompressed(EncodeMessage(m), AnswersPos(m), m.answers)
  {
    hide *;
    PartsLegal(m);
    ParseEncoded(m);
    assert OccursAt(EncodeMessage(m), EncodeRecords(m.answers), AnswersPos(m)) by { AnswersRead(m); }
    TargetsCut(EncodeMessage(m), AnswersPos(m), m.answers);
  }

  // A message whose only answer is the target "cam" with a pointer to the question's name "_o".
  const ASKED := Question(Name([[95, 111]], Root), PTR_IN)
  const CAM := Ptr(Name([], Pointer(0xC0, 12)), [0, 1, 0, 0, 0, 60], Name([[99, 97, 109]], Pointer(0xC0, 12)))
  const REPLY := Message([0, 0, 0, 0], [0, 0, 0, 0], [ASKED], [CAM], [])

  lemma ReplyLegal()
    ensures LegalMessage(REPLY) && LegalQuestion(ASKED) && LegalRecord(CAM)
    ensures EncodeName(ASKED.name) == [2, 95, 111, 0] && EncodeQuestions([ASKED]) == [2, 95, 111, 0] + PTR_IN
    ensures EncodeRecords([CAM]) == EncodeRecord(CAM)
  {
    var labels := ASKED.name.labels;
    assert labels[1..] == [] && EncodeLabels(labels) == [2] + [95, 111] + [];
    assert CAM.owner.labels == [] && EncodeName(CAM.owner) == [] + [0xC0, 12];
    assert CAM.target.labels[1..] == [] && EncodeLabels(CAM.target.labels) == [3] + [99, 97, 109] + [];
    assert |EncodeName(CAM.target)| == 6;
    hide EncodeName;
    assert [ASKED][1..] == [] && [CAM][1..] == [];
    assert EncodeQuestions([ASKED]) == EncodeName(ASKED.name) + PTR_IN + [];
    assert EncodeRecords([CAM]) == EncodeRecord(CAM) + [];
  }

  /** The announced host is cam._o; the parser returns cam. */
  lemma TargetTruncated()
    ensures LegalMessage(REPLY) && Parse(EncodeMessage(REPLY)) == [[99, 97, 109]]
    ensures Resolvable(EncodeMessage(REPLY), AnswersPos(REPLY), REPLY.answers)
    ensures FullTargets(EncodeMessage(REPLY), AnswersPos(REPLY), REPLY.answers) == [[99, 97, 109, 46, 95, 111]]
  {
    ReplyLegal();
    hide Parse, EncodeMessage, EncodeRecord, EncodeQuestions, EncodeName, OccursAt, Resolve, LegalName;
    var data := EncodeMessage(REPLY);
    MessageParts(REPLY);
    ParseEncoded(REPLY);
    assert [CAM][1..] == [] && Targets([CAM]) == CutHost(CAM) + [];
    assert AnswersPos(REPLY) == 20;
    TargetRead(data, 20, CAM);
    Parts(data, 12, EncodeName(ASKED.name), PTR_IN);
    ResolveName(data, 12, ASKED.name, 12);
    var at := TargetPos(20, CAM);
    ResolveName(data, at, CAM.target, at);
    var cam, o := CAM.target.labels, ASKED.name.labels;
    assert o + [] == o && TargetName(data, 20, CAM) == Some(cam + o);
    JoinAppend(cam, o);
    assert Join(cam + o) == [99, 97, 109, 46, 95, 111];
    assert FullTargets(data, 20, [CAM]) == Host(TargetName(data, 20, CAM).value) + [];
  }

  lemma AnswersRead(m: Message)
    requires LegalMessage(m)
    ensures OccursAt(EncodeMessage(m), EncodeRecords(m.answers), AnswersPos(m))
  {
    hide EncodeMessage, EncodeRecords, EncodeQuestions, OccursAt;
    MessageParts(m);
  }

  /** That response as it is on the wire. */
  const REPLY_BYTES: Bytes := [0, 0, 0, 0, 0, 1, 0, 1, 0, 0, 0, 0]
                              + [2, 95, 111, 0, 0, 12, 0, 1]
                              + [0xC0, 12, 0, 12, 0, 1, 0, 0, 0, 60, 0, 6, 3, 99, 97, 109, 0xC0, 12]

  lemma ReplyOnTheWire()
    ensures LegalMessage(REPLY) && EncodeMessage(REPLY) == REPLY_BYTES && Parse(REPLY_BYTES) == [[99, 97, 109]]
  {
    ReplyLegal();
    CamBytes();
    assert U16(1) == [0, 1];
    hide EncodeRecords, EncodeQuestions, Parse, U16;
    MessageIs(REPLY);
    hide EncodeMessage, EncodeName, EncodeRecord;
    var head, q, r := REPLY.head + U16(1) + U16(1) + REPLY.tail, EncodeQuestions([ASKED]), EncodeRecord(CAM);
    assert head == [0, 0, 0, 0, 0, 1, 0, 1, 0, 0, 0, 0];
    assert q == [2, 95, 111, 0, 0, 12, 0, 1];
    assert head + (q + (r + [])) == head + q + r;
    TargetTruncated();
  }

  lemma CamBytes()
    ensures LegalRecord(CAM)
    ensures EncodeRecord(CAM) == [0xC0, 12, 0, 12, 0, 1, 0, 0, 0, 60, 0, 6, 3, 99, 97, 109, 0xC0, 12]
  {
    ReplyLegal();
    assert CAM.owner.labels == [] && EncodeName(CAM.owner) == [0xC0, 12];
    var labels := CAM.target.labels;
    assert labels[1..] == [] && EncodeLabels(labels) == [3] + [99, 97, 109] + [];
    assert EncodeName(CAM.target) == [3, 99, 97, 109, 0xC0, 12];
    hide EncodeName, LegalName;
    assert U16(12) == [0, 12] && U16(6) == [0, 6];
  }

  /** A length byte with less behind it than it announces. */
  predicate CutLabel(tail: Bytes) {
    tail != [] && 1 <= tail[0] < 0xC0 && |tail| <= tail[0]
  }

  /** A PTR target that is cut off inside a label: the parser keeps the labels before it. */
  lemma {:induction false} PartsOfCut(data: Bytes, pos: nat, labels: seq<Bytes>, tail: Bytes)
    requires (forall k :: 0 <= k < |labels| ==> 1 <= |labels[k]| <= 63) && CutLabel(tail)
    requires OccursAt(data, EncodeLabels(labels) + tail, pos)
    ensures var end := pos + |EncodeLabels(labels)| + |tail|;
            end <= |data| && NameParts(data, pos, end) == labels
    decreases |labels|
  {
    if labels == [] {
      assert EncodeLabels(labels) + tail == tail && |EncodeLabels(labels)| == 0;
      hide *;
      CutEnd(data, pos, tail);
    } else {
      hide *;
      var l, more := CutCons(labels, tail);
      LabelThen(data, pos, l, more);
      PartsOfCut(data, pos + 1 + |l|, labels[1..], tail);
      LabelRead(data, pos, pos + |EncodeLabels(labels)| + |tail|, l, labels);
    }
  }

  /** A label with its length byte, and what follows it. */
  lemma LabelThen(data: Bytes, pos: nat, l: Bytes, more: Bytes)
    requires |l| < 64 && OccursAt(data, [|l|] + (l + more), pos)
    ensures pos + 1 + |l| + |more| <= |data| && data[pos] == |l| && data[pos + 1..pos + 1 + |l|] == l
    ensures OccursAt(data, more, pos + 1 + |l|)
  {
    hide *;
    Parts(data, pos, [|l|], l + more);
    ByteAt(data, pos, [|l|], 0);
    Parts(data, pos + 1, l, more);
    OccursIs(data, l, pos + 1);
    OccursFits(data, more, pos + 1 + |l|);
  }

  lemma LabelRead(data: Bytes, pos: nat, end: nat, l: Bytes, labels: seq<Bytes>)
    requires 1 <= |l| < 64 && pos + 1 + |l| <= end <= |data| && data[pos] == |l| && data[pos + 1..pos + 1 + |l|] == l
    requires labels != [] && labels[0] == l && NameParts(data, pos + 1 + |l|, end) == labels[1..]
    ensures NameParts(data, pos, end) == labels
  {
    hide *;
    NamePartsStep(data, pos, end);
    assert labels == [l] + labels[1..];
  }

  lemma CutEnd(data: Bytes, pos: nat, tail: Bytes)
    requires CutLabel(tail) && OccursAt(data, tail, pos)
    ensures pos + |tail| <= |data| && NameParts(data, pos, pos + |tail|) == []
  {
    ByteAt(data, pos, tail, 0);
    OccursFits(data, tail, pos);
    hide OccursAt;
  }

  lemma CutCons(labels: seq<Bytes>, tail: Bytes) returns (l: Bytes, more: Bytes)
    requires labels != [] && forall k :: 0 <= k < |labels| ==> 1 <= |labels[k]| <= 63
    ensures l == labels[0] && 1 <= |l| <= 63 && more == EncodeLabels(labels[1..]) + tail
    ensures EncodeLabels(labels) + tail == [|l|] + (l + more)
    ensures |EncodeLabels(labels)| == 1 + |l| + |EncodeLabels(labels[1..])|
    ensures forall k :: 0 <= k < |labels[1..]| ==> 1 <= |labels[1..][k]| <= 63
  {
    l, more := labels[0], EncodeLabels(labels[1..]) + tail;
    assert EncodeLabels(labels) == [|l|] + l + EncodeLabels(labels[1..]);
    hide EncodeLabels;
  }

  lemma OccursIs(data: Bytes, part: Bytes, pos: nat)
    requires OccursAt(data, part, pos)
    ensures pos + |part| <= |data| && data[pos..pos + |part|] == part
  {
  }

  // ----- The query encoder -----

  /** strings.Split at every dot. */
  function SplitDots(s: Bytes): (labels: seq<Bytes>)
    ensures labels != []
  {
    if s == [] then [[]]
    else
      var rest := SplitDots(s[1..]);
      if s[0] == DOT then [[]] + rest else [[s[0]] + rest[0]] + rest[1..]
  }

  lemma {:induction false} JoinSplit(s: Bytes)
    ensures Join(SplitDots(s)) == s
    ensures forall k :: 0 <= k < |SplitDots(s)| ==> DOT !in SplitDots(s)[k]
  {
    if s != [] {
      JoinSplit(s[1..]);
      var rest := SplitDots(s[1..]);
      assert s == [s[0]] + s[1..];
      if s[0] == DOT {
        assert ([[]] + rest)[1..] == rest;
      } else {
        var labels := [[s[0]] + rest[0]] + rest[1..];
        assert labels[1..] == rest[1..];
        if |rest| == 1 {
          assert rest[0] == s[1..];
        } else {
          assert [s[0]] + (rest[0] + [DOT] + Join(rest[1..])) == ([s[0]] + rest[0]) + [DOT] + Join(rest[1..]);
        }
      }
    }
  }

  /** The label bytes as the source appends them: a length is cut to its low byte. */
  function RawLabels(labels: seq<Bytes>): Bytes {
    if labels == [] then [] else [|labels[0]| % 256] + labels[0] + RawLabels(labels[1..])
  }

  const QUERY_HEADER: Bytes := [0, 0, 0, 0, 0, 1, 0, 0, 0, 0, 0, 0]
  const PTR_IN: Bytes := [0, 12, 0, 1]

  method BuildMDNSQuery(service: Bytes) returns (buf: Bytes)
    ensures buf == Query(service)
  {
    buf := [0, 0];
    buf := buf + [0, 0];
    buf := buf + [0, 1];
    buf := buf + [0, 0];
    buf := buf + [0, 0];
    buf := buf + [0, 0];
    var labels := SplitDots(service);
    ghost var all := QUERY_HEADER + RawLabels(labels);
    for i := 0 to |labels|
      invariant buf + RawLabels(labels[i..]) == all
    {
      assert labels[i..][1..] == labels[i + 1..];
      var n: Byte := |labels[i]| % 256;
      Append(buf, [n], labels[i], RawLabels(labels[i + 1..]));
      buf := buf + [n];
      buf := buf + labels[i];
    }
    assert labels[|labels|..] == [] && buf == all;
    buf := buf + [0];
    buf := buf + [0, 12];
    buf := buf + [0, 1];
  }

  lemma Append(buf: Bytes, a: Bytes, b: Bytes, c: Bytes)
    ensures buf + (a + b + c) == (buf + a + b) + c
  {
  }

  lemma {:induction false} RawIsEncoded(labels: seq<Bytes>)
    requires forall k :: 0 <= k < |labels| ==> |labels[k]| < 256
    ensures RawLabels(labels) == EncodeLabels(labels)
  {
    if labels != [] {
      RawIsEncoded(labels[1..]);
    }
  }

  /** Every label of the service name is one to 63 bytes long. */
  predicate LegalService(service: Bytes) {
    LegalName(Name(SplitDots(service), Root))
  }

  /** The bytes of the query. */
  function Query(service: Bytes): Bytes {
    QUERY_HEADER + RawLabels(SplitDots(service)) + [0] + PTR_IN
  }

  function QueryName(service: Bytes): Name {
    Name(SplitDots(service), Root)
  }

  function QueryMessage(service: Bytes): Message {
    Message([0, 0, 0, 0], [0, 0, 0, 0], [Question(QueryName(service), PTR_IN)], [], [])
  }

  lemma QueryIsMessage(service: Bytes)
    requires LegalService(service)
    ensures LegalMessage(QueryMessage(service)) && EncodeMessage(QueryMessage(service)) == Query(service)
    ensures |Query(service)| == 12 + |EncodeName(QueryName(service))| + 4
    ensures OccursAt(Query(service), EncodeName(QueryName(service)), 12)
  {
    assert |QUERY_HEADER| == 12 && |PTR_IN| == 4;
    hide *;
    var n, m := QueryName(service), QueryMessage(service);
    QueryLegal(service);
    QueryFields(service);
    MessageIs(m);
    OneQuestion(m.questions[0]);
    NoRecords();
    QueryBytes(service);
    var name := EncodeName(n);
    assert name + PTR_IN + ([] + []) == name + PTR_IN;
    Layout(QUERY_HEADER, name, PTR_IN);
  }

  lemma QueryLegal(service: Bytes)
    requires LegalService(service)
    ensures LegalName(QueryName(service)) && LegalMessage(QueryMessage(service))
    ensures LegalQuestion(Question(QueryName(service), PTR_IN))
  {
    hide SplitDots, LegalName;
  }

  lemma QueryFields(service: Bytes)
    ensures var m := QueryMessage(service);
            && m.questions == [Question(QueryName(service), PTR_IN)] && m.answers == [] && m.rest == []
            && m.head + U16(1) + U16(0) + m.tail == QUERY_HEADER
  {
    hide SplitDots;
  }

  lemma OneQuestion(q: Question)
    requires LegalQuestion(q)
    ensures EncodeQuestions([q]) == EncodeName(q.name) + q.typeAndClass
  {
    hide EncodeName;
    assert [q][1..] == [] && EncodeQuestions([]) == [];
    assert EncodeName(q.name) + q.typeAndClass + [] == EncodeName(q.name) + q.typeAndClass;
  }

  lemma NoRecords()
    ensures EncodeRecords([]) == []
  {
  }

  lemma QueryBytes(service: Bytes)
    requires LegalService(service)
    ensures LegalName(QueryName(service))
    ensures Query(service) == QUERY_HEADER + (EncodeName(QueryName(service)) + PTR_IN)
  {
    var labels := SplitDots(service);
    hide SplitDots;
    RawIsEncoded(labels);
    hide EncodeLabels, RawLabels;
    assert EncodeName(QueryName(service)) == RawLabels(labels) + [0];
    Regroup(QUERY_HEADER, RawLabels(labels), [0]);
    Regroup(QUERY_HEADER, RawLabels(labels) + [0], PTR_IN);
  }

  lemma Layout(header: Bytes, name: Bytes, trailer: Bytes)
    requires |header| == 12 && |trailer| == 4
    ensures |header + (name + trailer)| == 12 + |name| + 4 && OccursAt(header + (name + trailer), name, 12)
  {
    var all := header + (name + trailer);
    assert all[12..12 + |name|] == name;
  }

  /** The query for _o as it is on the wire. */
  lemma QueryOnTheWire()
    ensures Query([95, 111]) == [0, 0, 0, 0, 0, 1, 0, 0, 0, 0, 0, 0] + [2, 95, 111, 0] + [0, 12, 0, 1]
  {
    var s: Bytes := [95, 111];
    OneLabel(s);
    hide SplitDots;
    var labels := SplitDots(s);
    assert labels[1..] == [] && RawLabels(labels) == [2] + [95, 111] + [];
  }

  lemma {:induction false} OneLabel(s: Bytes)
    requires DOT !in s
    ensures SplitDots(s) == [s]
  {
    if s != [] {
      OneLabel(s[1..]);
      assert s == [s[0]] + s[1..] && s[0] in s;
    }
  }

  /**
   The built query is a legal message with one question, whose name the parser's own name loop reads back as the
   service; as a response it announces nothing.
   */
  lemma QueryRoundTrip(service: Bytes)
    requires LegalService(service)
    ensures LegalMessage(QueryMessage(service)) && EncodeMessage(QueryMessage(service)) == Query(service)
    ensures var end := 12 + |EncodeName(QueryName(service))|;
            |Query(service)| == end + 4 && Skip(Query(service), 12) == end
            && Join(NameParts(Query(service), 12, end)) == service
    ensures Parse(Query(service)) == []
  {
    hide SplitDots, Skip, NameParts, Join, Parse, EncodeMessage, EncodeName, LegalName, Query;
    QueryIsMessage(service);
    JoinSplit(service);
    SkipName(Query(service), 12, QueryName(service));
    PartsOfName(Query(service), 12, QueryName(service));
    ParseEncoded(QueryMessage(service));
  }
}
