/**
 DNS names on the wire (internal/scanner/agent/names.go; RFC 1035 sections 3.1 and
 4.1.4): the encoder, the pointer-following decoder, and the skip over a name.
 */
module DnsName {

  type Byte = b: int | 0 <= b < 256

  type Bytes = seq<Byte>

  const MAX_HOPS: nat := 16
  const DOT: Byte := 0x2e

  datatype Result<T> = Ok(value: T) | Err

  /** A decoded name: the dotted name and the offset just after it in the record. */
  datatype Name = Name(dotted: Bytes, next: nat)

  // ----- dotted names -----

  /** `strings.Join(labels, ".")`. */
  function Join(labels: seq<Bytes>): Bytes {
    if labels == [] then []
    else if |labels| == 1 then labels[0]
    else labels[0] + [DOT] + Join(labels[1..])
  }

  /** One more label goes behind a dot. */
  lemma {:induction false} JoinSnoc(labels: seq<Bytes>, l: Bytes)
    ensures Join(labels + [l]) == if labels == [] then l else Join(labels) + [0x2e] + l
  {
    if labels == [] {
      assert labels + [l] == [l];
    } else {
      assert (labels + [l])[1..] == labels[1..] + [l];
      JoinSnoc(labels[1..], l);
    }
  }

  /** `strings.Split(name, ".")`. */
  function Split(name: Bytes): (parts: seq<Bytes>)
    ensures |parts| >= 1
  {
    if name == [] then [[]]
    else
      var rest := Split(name[1..]);
      if name[0] == DOT then [[]] + rest else [[name[0]] + rest[0]] + rest[1..]
  }

  // ----- derivations: what it means for bytes to spell a name -----

  /** The two top bits set: a compression pointer. Every other non-zero byte is read as a length. */
  predicate IsPointer(b: Byte) {
    b >= 0xc0
  }

  function Target(buf: Bytes, pos: nat): nat
    requires pos + 1 < |buf|
  {
    var hi: int, lo: int := buf[pos], buf[pos + 1];
    hi % 0x40 * 256 + lo
  }

  /**
   A derivation lists the positions visited. Each is a label that lies within the
   buffer or a pointer, leading to the next; the last holds the terminating zero.
   */
  ghost predicate Derivation(buf: Bytes, steps: seq<nat>) {
    && |steps| > 0
    && (forall i :: 0 <= i < |steps| ==> steps[i] < |buf|)
    && (forall i :: 0 <= i < |steps| - 1 ==> Leads(buf, steps[i], steps[i + 1]))
    && buf[steps[|steps| - 1]] == 0
  }

  predicate Leads(buf: Bytes, pos: nat, pos': nat)
    requires pos < |buf|
  {
    var n := buf[pos];
    if n == 0 then false
    else if IsPointer(n) then pos + 1 < |buf| && pos' == Target(buf, pos)
    else pos' == pos + 1 + n && pos' <= |buf|
  }

  ghost function Pointers(buf: Bytes, steps: seq<nat>): nat
    requires forall i :: 0 <= i < |steps| ==> steps[i] < |buf|
  {
    if steps == [] then 0 else (if IsPointer(buf[steps[0]]) then 1 else 0) + Pointers(buf, steps[1..])
  }

  ghost function Labels(buf: Bytes, steps: seq<nat>): seq<Bytes>
    requires Derivation(buf, steps)
  {
    if |steps| == 1 then []
    else if IsPointer(buf[steps[0]]) then Labels(buf, Tail(buf, steps))
    else [buf[steps[0] + 1..steps[1]]] + Labels(buf, Tail(buf, steps))
  }

  ghost function Tail(buf: Bytes, steps: seq<nat>): (r: seq<nat>)
    requires Derivation(buf, steps) && |steps| > 1
    ensures Derivation(buf, r) && |r| == |steps| - 1
  {
    assert forall i :: 0 <= i < |steps| - 2 ==> Leads(buf, steps[1..][i], steps[1..][i + 1]) by {
      forall i | 0 <= i < |steps| - 2
        ensures Leads(buf, steps[1..][i], steps[1..][i + 1])
      {
        assert Leads(buf, steps[i + 1], steps[i + 2]);
      }
    }
    steps[1..]
  }

  /** The offset just after the name in its record: past the terminator or past the first pointer. */
  ghost function Next(buf: Bytes, steps: seq<nat>): nat
    requires Derivation(buf, steps)
  {
    if |steps| == 1 then steps[0] + 1
    else if IsPointer(buf[steps[0]]) then steps[0] + 2
    else Next(buf, Tail(buf, steps))
  }

  ghost predicate Spells(buf: Bytes, pos: nat, steps: seq<nat>, hops: nat) {
    Derivation(buf, steps) && steps[0] == pos && Pointers(buf, steps) <= hops
  }

  // ----- the decoder -----

  /** `readDNSName` from a given position with `hops` pointers still allowed. */
  function Read(buf: Bytes, pos: nat, hops: nat): Result<(seq<Bytes>, nat)>
    decreases hops, |buf| - pos
  {
    if pos >= |buf| then Err
    else
      var n := buf[pos];
      if n == 0 then Ok(([], pos + 1))
      else if IsPointer(n) then
        if pos + 1 >= |buf| || hops == 0 then Err
        else match Read(buf, Target(buf, pos), hops - 1)
          case Err => Err
          case Ok((labels, _)) => Ok((labels, pos + 2))
      else if pos + 1 + n > |buf| then Err
      else match Read(buf, pos + 1 + n, hops)
        case Err => Err
        case Ok((labels, next)) => Ok(([buf[pos + 1..pos + 1 + n]] + labels, next))
  }

  function Decoded(r: Result<(seq<Bytes>, nat)>): Result<Name> {
    match r
    case Err => Err
    case Ok((labels, next)) => Ok(Name(Join(labels), next))
  }

  /** `readDNSName`. The loop ends on every buffer: hops left, then bytes left. */
  method ReadDNSName(buf: Bytes, start: nat) returns (r: Result<Name>)
    ensures r == Decoded(Read(buf, start, MAX_HOPS))
  {
    var labels: seq<Bytes> := [];
    var pos: nat, next: int, hops: nat := start, -1, 0;
    ghost var whole := Read(buf, start, MAX_HOPS);
    if whole.Ok? {
      assert labels + whole.value.0 == whole.value.0;
    }
    while true
      invariant hops <= MAX_HOPS && next >= -1
      invariant Resumed(Read(buf, pos, MAX_HOPS - hops), labels, next) == Decoded(Read(buf, start, MAX_HOPS))
      decreases MAX_HOPS - hops, |buf| - pos
    {
      if pos >= |buf| {
        return Err;
      }
      var n := buf[pos];
      if n == 0 {
        pos := pos + 1;
        if next == -1 {
          next := pos;
        }
        assert labels + [] == labels;
        return Ok(Name(Join(labels), next));
      } else if IsPointer(n) {
        if pos + 1 >= |buf| {
          return Err;
        }
        var ptr := Target(buf, pos);
        if next == -1 {
          next := pos + 2;
        }
        hops := hops + 1;
        if hops > MAX_HOPS {
          return Err;
        }
        pos := ptr;
      } else {
        var first := pos + 1;
        var end := first + n;
        if end > |buf| {
          return Err;
        }
        ghost var rest := Read(buf, end, MAX_HOPS - hops);
        if rest.Ok? {
          assert labels + ([buf[first..end]] + rest.value.0) == (labels + [buf[first..end]]) + rest.value.0;
        }
        labels := labels + [buf[first..end]];
        pos := end;
      }
    }
  }

  /** A read that had already collected `labels` and, unless -1, settled the next offset. */
  ghost function Resumed(r: Result<(seq<Bytes>, nat)>, labels: seq<Bytes>, next: int): Result<Name>
    requires next >= -1
  {
    match r
    case Err => Err
    case Ok((rest, after)) => Ok(Name(Join(labels + rest), if next == -1 then after else next))
  }

  /** `skipName`. */
  function Skip(buf: Bytes, pos: nat): Result<nat>
    decreases |buf| - pos
  {
    if pos >= |buf| then Err
    else
      var n := buf[pos];
      if n == 0 then Ok(pos + 1)
      else if IsPointer(n) then if pos + 1 >= |buf| then Err else Ok(pos + 2)
      else Skip(buf, pos + 1 + n)
  }

  method SkipName(buf: Bytes, start: nat) returns (r: Result<nat>)
    ensures r == Skip(buf, start)
  {
    var pos: nat := start;
    while true
      invariant Skip(buf, pos) == Skip(buf, start)
      decreases |buf| - pos
    {
      if pos >= |buf| {
        return Err;
      }
      var n := buf[pos];
      if n == 0 {
        return Ok(pos + 1);
      }
      if IsPointer(n) {
        if pos + 1 >= |buf| {
          return Err;
        }
        return Ok(pos + 2);
      }
      pos := pos + 1 + n;
    }
  }

  // ----- decoding is exactly derivability within 16 pointers -----

  lemma ConsDerivation(buf: Bytes, pos: nat, steps: seq<nat>)
    requires Derivation(buf, steps) && pos < |buf| && Leads(buf, pos, steps[0])
    ensures Derivation(buf, [pos] + steps) && Tail(buf, [pos] + steps) == steps
    ensures Pointers(buf, [pos] + steps) == (if IsPointer(buf[pos]) then 1 else 0) + Pointers(buf, steps)
  {
    var all := [pos] + steps;
    forall i | 0 <= i < |all| - 1
      ensures Leads(buf, all[i], all[i + 1])
    {
      if i > 0 {
        assert Leads(buf, steps[i - 1], steps[i]);
      }
    }
    assert all[1..] == steps;
  }

  lemma {:induction false} ReadDerives(buf: Bytes, pos: nat, hops: nat) returns (steps: seq<nat>)
    requires Read(buf, pos, hops).Ok?
    ensures Spells(buf, pos, steps, hops)
    ensures Read(buf, pos, hops).value == (Labels(buf, steps), Next(buf, steps))
    decreases hops, |buf| - pos
  {
    var n := buf[pos];
    if n == 0 {
      steps := [pos];
      assert Pointers(buf, [pos][1..]) == 0;
    } else {
      var rest: seq<nat>;
      if IsPointer(n) {
        rest := ReadDerives(buf, Target(buf, pos), hops - 1);
      } else {
        rest := ReadDerives(buf, pos + 1 + n, hops);
      }
      steps := [pos] + rest;
      ConsDerivation(buf, pos, rest);
    }
  }

  lemma {:induction false} DerivationReads(buf: Bytes, pos: nat, hops: nat, steps: seq<nat>)
    requires Spells(buf, pos, steps, hops)
    ensures Read(buf, pos, hops) == Ok((Labels(buf, steps), Next(buf, steps)))
    decreases |steps|
  {
    if |steps| > 1 {
      assert Leads(buf, steps[0], steps[1]);
      var rest := Tail(buf, steps);
      assert rest[0] == steps[1];
      DerivationReads(buf, steps[1], if IsPointer(buf[pos]) then hops - 1 else hops, rest);
    }
  }

  /** The decoder succeeds with exactly the labels of a derivation through at most 16 pointers, and fails when there is none. */
  lemma ReadIsDerivability(buf: Bytes, pos: nat, labels: seq<Bytes>, next: nat)
    ensures Read(buf, pos, MAX_HOPS) == Ok((labels, next)) <==>
      exists steps :: Spells(buf, pos, steps, 16) && labels == Labels(buf, steps) && next == Next(buf, steps)
    ensures Read(buf, pos, MAX_HOPS).Err? <==> !exists steps :: Spells(buf, pos, steps, 16)
  {
    if Read(buf, pos, MAX_HOPS).Ok? {
      var steps := ReadDerives(buf, pos, MAX_HOPS);
    }
    forall steps | Spells(buf, pos, steps, MAX_HOPS)
      ensures Read(buf, pos, MAX_HOPS) == Ok((Labels(buf, steps), Next(buf, steps)))
    {
      DerivationReads(buf, pos, MAX_HOPS, steps);
    }
  }

  /**
   A pointer is two bytes: the marker bits and a 14-bit offset, high byte first. It reads as
   the name at that offset and ends after its two bytes.
  */
  lemma PointerReads(buf: Bytes, pos: nat, off: nat, hops: nat)
    requires off < 0x4000 && pos + 2 <= |buf| && buf[pos..pos + 2] == [0xC0 + off / 256, off % 256]
    ensures Read(buf, pos, 0) == Err
    ensures Read(buf, pos, hops + 1).Ok? <==> Read(buf, off, hops).Ok?
    ensures Read(buf, off, hops).Ok? ==> Read(buf, pos, hops + 1).value == (Read(buf, off, hops).value.0, pos + 2)
  {
    assert buf[pos] == buf[pos..pos + 2][0] && buf[pos + 1] == buf[pos..pos + 2][1];
  }

  /** What reads after `labels` read as `r`. */
  function Prepended(labels: seq<Bytes>, r: Result<(seq<Bytes>, nat)>): Result<(seq<Bytes>, nat)> {
    match r
    case Err => Err
    case Ok((rest, next)) => Ok((labels + rest, next))
  }

  /** A length byte takes that many bytes as a label. */
  lemma LabelReads(buf: Bytes, pos: nat, l: Bytes, hops: nat)
    requires 1 <= |l| < 0xC0 && pos + 1 + |l| <= |buf| && buf[pos..pos + 1 + |l|] == [|l|] + l
    ensures Read(buf, pos, hops) == Prepended([l], Read(buf, pos + 1 + |l|, hops))
  {
    var field := buf[pos..pos + 1 + |l|];
    assert buf[pos] == field[0];
    assert buf[pos + 1..pos + 1 + |l|] == field[1..] == l;
  }

  /** A name that decodes can be skipped, to the same offset. */
  lemma {:induction false} SkipAgreesWithRead(buf: Bytes, pos: nat, hops: nat)
    requires Read(buf, pos, hops).Ok?
    ensures Skip(buf, pos) == Ok(Read(buf, pos, hops).value.1)
    decreases |buf| - pos
  {
    var n := buf[pos];
    if n != 0 && !IsPointer(n) {
      SkipAgreesWithRead(buf, pos + 1 + n, hops);
    }
  }

  // ----- the encoder -----

  function EncodeParts(parts: seq<Bytes>): Bytes {
    if parts == [] then [0]
    else if parts[0] == [] then EncodeParts(parts[1..])
    else [|parts[0]| % 256] + parts[0] + EncodeParts(parts[1..])
  }

  /** `appendDNSName`. */
  method AppendDNSName(buf: Bytes, name: Bytes) returns (r: Bytes)
    ensures r == buf + EncodeParts(Split(name))
  {
    r := buf;
    var parts := Split(name);
    for i := 0 to |parts|
      invariant r + EncodeParts(parts[i..]) == buf + EncodeParts(parts)
    {
      assert parts[i..][0] == parts[i] && parts[i..][1..] == parts[i + 1..];
      if parts[i] != [] {
        assert r + ([|parts[i]| % 256] + parts[i] + EncodeParts(parts[i + 1..]))
            == (r + [|parts[i]| % 256] + parts[i]) + EncodeParts(parts[i + 1..]);
        r := r + [|parts[i]| % 256] + parts[i];
      }
    }
    r := r + [0];
  }

  /** The labels the decoder reads back: not empty, free of dots, and short enough not to look like a pointer. */
  predicate Readable(labels: seq<Bytes>) {
    forall i :: 0 <= i < |labels| ==> 1 <= |labels[i]| < 0xc0 && DOT !in labels[i]
  }

  lemma {:induction false} SplitLabel(part: Bytes)
    requires DOT !in part
    ensures Split(part) == [part]
  {
    if part != [] {
      SplitLabel(part[1..]);
      assert part == [part[0]] + part[1..];
    }
  }

  lemma {:induction false} SplitAtDot(part: Bytes, rest: Bytes)
    requires DOT !in part
    ensures Split(part + [DOT] + rest) == [part] + Split(rest)
  {
    var name := part + [DOT] + rest;
    if part == [] {
      assert name[1..] == rest;
    } else {
      assert name[1..] == part[1..] + [DOT] + rest;
      SplitAtDot(part[1..], rest);
      assert part == [part[0]] + part[1..];
    }
  }

  lemma {:induction false} SplitJoin(labels: seq<Bytes>)
    requires forall i :: 0 <= i < |labels| ==> DOT !in labels[i]
    ensures Split(Join(labels)) == if labels == [] then [[]] else labels
  {
    if |labels| == 1 {
      SplitLabel(labels[0]);
    } else if |labels| > 1 {
      SplitJoin(labels[1..]);
      SplitAtDot(labels[0], Join(labels[1..]));
      assert labels == [labels[0]] + labels[1..];
    }
  }

  lemma {:induction false} ReadEncoded(before: Bytes, labels: seq<Bytes>, after: Bytes, hops: nat)
    requires forall i :: 0 <= i < |labels| ==> 1 <= |labels[i]| < 0xc0
    ensures Read(before + EncodeParts(labels) + after, |before|, hops) == Ok((labels, |before + EncodeParts(labels)|))
    decreases |labels|
  {
    if labels == [] {
      assert (before + [0] + after)[|before|] == 0;
    } else {
      var l, rest := labels[0], labels[1..];
      ReadEncoded(before + [|l|] + l, rest, after, hops);
      LabelBeforeRest(before, l, EncodeParts(rest), after, rest, hops);
      FirstLabel(labels);
    }
  }

  lemma FirstLabel(labels: seq<Bytes>)
    requires labels != [] && 1 <= |labels[0]| < 0xc0
    ensures labels == [labels[0]] + labels[1..]
    ensures EncodeParts(labels) == [|labels[0]|] + labels[0] + EncodeParts(labels[1..])
  {
  }

  /** A label in front of what reads as `rest`. */
  lemma LabelBeforeRest(before: Bytes, l: Bytes, tail: Bytes, after: Bytes, rest: seq<Bytes>, hops: nat)
    requires 1 <= |l| < 0xc0
    requires Read((before + [|l|] + l) + tail + after, |before + [|l|] + l|, hops) == Ok((rest, |(before + [|l|] + l) + tail|))
    ensures Read(before + ([|l|] + l + tail) + after, |before|, hops) == Ok(([l] + rest, |before + ([|l|] + l + tail)|))
  {
    OneLabelLaid(before, l, tail, after);
    OneMore(before + ([|l|] + l + tail) + after, |before|, l, rest, |before + ([|l|] + l + tail)|, hops);
  }

  lemma OneLabelLaid(before: Bytes, l: Bytes, tail: Bytes, after: Bytes)
    requires 1 <= |l| < 0xc0
    ensures var buf := before + ([|l|] + l + tail) + after;
      && buf == (before + [|l|] + l) + tail + after
      && |before + ([|l|] + l + tail)| == |(before + [|l|] + l) + tail|
      && buf[|before|] == |l| && buf[|before| + 1..|before| + 1 + |l|] == l
  {
  }

  lemma OneMore(buf: Bytes, pos: nat, l: Bytes, rest: seq<Bytes>, next: nat, hops: nat)
    requires 1 <= |l| < 0xc0 && pos + 1 + |l| <= |buf|
    requires buf[pos] == |l| && buf[pos + 1..pos + 1 + |l|] == l
    ensures Read(buf, pos, hops) == Ok(([l] + rest, next)) <==> Read(buf, pos + 1 + |l|, hops) == Ok((rest, next))
  {
    var r := Read(buf, pos + 1 + |l|, hops);
    if r.Ok? {
      assert ([l] + r.value.0)[1..] == r.value.0 && ([l] + rest)[1..] == rest;
    }
  }

  lemma EncodeSplitJoin(labels: seq<Bytes>)
    requires forall i :: 0 <= i < |labels| ==> labels[i] != [] && DOT !in labels[i]
    ensures EncodeParts(Split(Join(labels))) == EncodeParts(labels)
  {
    SplitJoin(labels);
    if labels == [] {
      var blank: seq<Bytes> := [[]];
      assert blank[1..] == [];
    }
  }

  /**
   Round trip: a name of labels of 1 to 63 dot-free bytes (in fact up to 191), appended
   anywhere, reads back as the same name and ends where the encoding ends.
   */
  lemma RoundTrip(before: Bytes, labels: seq<Bytes>, after: Bytes)
    requires Readable(labels)
    ensures var code := EncodeParts(Split(Join(labels)));
      && Decoded(Read(before + code + after, |before|, MAX_HOPS)) == Ok(Name(Join(labels), |before + code|))
      && Skip(before + code + after, |before|) == Ok(|before + code|)
  {
    LabelsReadBack(before, labels, after, MAX_HOPS);
    SkipAgreesWithRead(before + EncodeParts(Split(Join(labels))) + after, |before|, MAX_HOPS);
  }

  lemma LabelsReadBack(before: Bytes, labels: seq<Bytes>, after: Bytes, hops: nat)
    requires Readable(labels)
    ensures var code := EncodeParts(Split(Join(labels)));
      Read(before + code + after, |before|, hops) == Ok((labels, |before + code|))
  {
    EncodeSplitJoin(labels);
    ReadEncoded(before, labels, after, hops);
  }

  // ----- compression -----

  /** Labels as they stand before a terminator or a pointer. */
  function LabelRun(labels: seq<Bytes>): Bytes
    requires Readable(labels)
  {
    if labels == [] then [] else [|labels[0]|] + labels[0] + LabelRun(labels[1..])
  }

  ghost predicate Holds(buf: Bytes, pos: nat, bytes: Bytes) {
    pos + |bytes| <= |buf| && buf[pos..pos + |bytes|] == bytes
  }

  lemma HoldsParts(buf: Bytes, pos: nat, x: Bytes, y: Bytes)
    requires Holds(buf, pos, x + y)
    ensures Holds(buf, pos, x) && Holds(buf, pos + |x|, y)
  {
    var all := buf[pos..pos + |x + y|];
    assert all[..|x|] == x && all[|x|..] == y;
    assert buf[pos..pos + |x|] == all[..|x|] && buf[pos + |x|..pos + |x| + |y|] == all[|x|..];
  }

  lemma {:induction false} LabelRunReads(buf: Bytes, pos: nat, labels: seq<Bytes>, hops: nat)
    requires Readable(labels) && Holds(buf, pos, LabelRun(labels))
    ensures Read(buf, pos, hops) == Prepended(labels, Read(buf, pos + |LabelRun(labels)|, hops))
    decreases |labels|
  {
    var r := Read(buf, pos + |LabelRun(labels)|, hops);
    if labels == [] {
      PrependedNone(r);
    } else {
      var first, rest := [|labels[0]|] + labels[0], labels[1..];
      HoldsParts(buf, pos, first, LabelRun(rest));
      LabelReads(buf, pos, labels[0], hops);
      LabelRunReads(buf, pos + |first|, rest, hops);
      PrependedTwice(labels[0], rest, r);
      assert [labels[0]] + rest == labels;
    }
  }

  lemma PrependedNone(r: Result<(seq<Bytes>, nat)>)
    ensures Prepended([], r) == r
  {
    if r.Ok? {
      assert [] + r.value.0 == r.value.0;
    }
  }

  lemma PrependedTwice(l: Bytes, rest: seq<Bytes>, r: Result<(seq<Bytes>, nat)>)
    ensures Prepended([l], Prepended(rest, r)) == Prepended([l] + rest, r)
  {
    if r.Ok? {
      assert [l] + (rest + r.value.0) == ([l] + rest) + r.value.0;
    }
  }

  /** A compressed name, labels and then a pointer to a name written elsewhere, reads as the two joined. */
  lemma CompressedRoundTrip(buf: Bytes, off: nat, suffix: seq<Bytes>, pos: nat, prefix: seq<Bytes>)
    requires off < 0x4000 && Readable(suffix) && Readable(prefix)
    requires Holds(buf, off, EncodeParts(Split(Join(suffix))))
    requires Holds(buf, pos, LabelRun(prefix) + [0xC0 + off / 256, off % 256])
    ensures Decoded(Read(buf, pos, MAX_HOPS)) == Ok(Name(Join(prefix + suffix), pos + |LabelRun(prefix)| + 2))
  {
    var run, mark := LabelRun(prefix), [0xC0 + off / 256, off % 256];
    HoldsParts(buf, pos, run, mark);
    HeldReadsBack(buf, off, suffix, EncodeParts(Split(Join(suffix))), 15);
    PointerReads(buf, pos + |run|, off, 15);
    LabelRunReads(buf, pos, prefix, 16);
  }

  lemma HeldReadsBack(buf: Bytes, off: nat, labels: seq<Bytes>, code: Bytes, hops: nat)
    requires Readable(labels) && code == EncodeParts(Split(Join(labels))) && Holds(buf, off, code)
    ensures Read(buf, off, hops) == Ok((labels, off + |code|))
  {
    var before, after := buf[..off], buf[off + |code|..];
    HeldInside(buf, off, code);
    LabelsReadBack(before, labels, after, hops);
    assert |before| == off && |before + code| == off + |code|;
  }

  lemma HeldInside(buf: Bytes, off: nat, bytes: Bytes)
    requires Holds(buf, off, bytes)
    ensures buf[..off] + bytes + buf[off + |bytes|..] == buf
  {
  }

  // ----- longer labels -----

  predicate Short(parts: seq<Bytes>) {
    forall i :: 0 <= i < |parts| ==> |parts[i]| < 0xc0
  }

  lemma {:induction false} LabelsReadAreShort(buf: Bytes, pos: nat, hops: nat)
    ensures Read(buf, pos, hops).Ok? ==> Short(Read(buf, pos, hops).value.0)
    decreases hops, |buf| - pos
  {
    if pos < |buf| && buf[pos] != 0 {
      var n := buf[pos];
      if IsPointer(n) {
        if pos + 1 < |buf| && hops > 0 {
          LabelsReadAreShort(buf, Target(buf, pos), hops - 1);
        }
      } else {
        LabelsReadAreShort(buf, pos + 1 + n, hops);
      }
    }
  }

  lemma {:induction false} PartsWithin(name: Bytes, bound: nat)
    requires |name| <= bound
    ensures forall i :: 0 <= i < |Split(name)| ==> |Split(name)[i]| <= bound
    ensures |Split(name)[0]| <= |name|
  {
    if name != [] {
      PartsWithin(name[1..], bound);
    }
  }

  lemma {:induction false} SplitAcrossDot(x: Bytes, rest: Bytes)
    ensures Split(x + [DOT] + rest) == Split(x) + Split(rest)
  {
    var name := x + [DOT] + rest;
    if x == [] {
      assert name[1..] == rest;
    } else {
      assert name[1..] == x[1..] + [DOT] + rest;
      SplitAcrossDot(x[1..], rest);
    }
  }

  /** Joining short labels leaves no long stretch between dots, whatever bytes they hold. */
  lemma {:induction false} JoinedStaysShort(labels: seq<Bytes>)
    requires Short(labels)
    ensures Short(Split(Join(labels)))
  {
    if |labels| == 1 {
      PartsWithin(labels[0], 0xbf);
    } else if |labels| > 1 {
      JoinedStaysShort(labels[1..]);
      PartsWithin(labels[0], 0xbf);
      SplitAcrossDot(labels[0], Join(labels[1..]));
    }
  }

  /** The encoder does not guard the length byte: a name comes back exactly when every label is shorter than 192 bytes. */
  lemma RoundTripExactly(before: Bytes, labels: seq<Bytes>, after: Bytes)
    requires forall i :: 0 <= i < |labels| ==> labels[i] != [] && DOT !in labels[i]
    ensures var code := EncodeParts(Split(Join(labels)));
      Decoded(Read(before + code + after, |before|, MAX_HOPS)) == Ok(Name(Join(labels), |before + code|)) <==> Readable(labels)
  {
    var buf := before + EncodeParts(Split(Join(labels))) + after;
    var r := Read(buf, |before|, MAX_HOPS);
    if r.Ok? && Join(r.value.0) == Join(labels) {
      LabelsReadAreShort(buf, |before|, MAX_HOPS);
      JoinedStaysShort(r.value.0);
      SplitJoin(labels);
    }
    if Readable(labels) {
      RoundTrip(before, labels, after);
    }
  }

  /** A label of 192 bytes: whatever stands around it, its name is not read back. */
  lemma LongLabelIsLost(before: Bytes, after: Bytes) returns (labels: seq<Bytes>)
    ensures |labels| == 1 && |labels[0]| == 192 && DOT !in labels[0]
    ensures var code := EncodeParts(Split(Join(labels)));
      Decoded(Read(before + code + after, |before|, MAX_HOPS)) != Ok(Name(Join(labels), |before + code|))
  {
    var long: Bytes := seq(192, _ => 0x61);
    labels := [long];
    RoundTripExactly(before, labels, after);
  }
}
