/** The walk over the AD structures of an advertisement that looks for EnOcean manufacturer data
(section 11 of Bluetooth Core Specification Vol 3 Part C).

The loop's length guard admits a record that is one byte longer than the buffer, so the walk may reach
the byte that follows the buffer. That byte is the parameter `after`; `TouchesAfter` says exactly when
the walk reads it or returns a span that includes it. */
module AdStructures {
  import opened Bytes

  const MANUFACTURER: byte := 0xFF
  const COMPANY_LO: byte := 0xDA
  const COMPANY_HI: byte := 0x03
  const COMPANY := 0x03DA

  // ------------------------------------------------------------------ The loop, as a function

  /** The manufacturer payload found in the remaining bytes `s`; empty when there is none. */
  function Extract(s: seq<byte>, after: byte): (payload: seq<byte>)
    ensures |payload| <= 252
    decreases |s|
  {
    if s == [] || s[0] == 0 || s[0] > |s| then []
    else
      var mem := s + [after];
      if mem[1] == MANUFACTURER && |s| < 4 then []
      else if mem[1] == MANUFACTURER && mem[2] as int + 256 * mem[3] as int == COMPANY then
        if s[0] < 3 then [] else mem[4..1 + s[0]]
      else if s[0] == |s| then []
      else Extract(s[1 + s[0]..], after)
  }

  /** True when the walk over `s` reads the byte after `s` or returns a span that includes it. */
  predicate TouchesAfter(s: seq<byte>)
    decreases |s|
  {
    if s == [] || s[0] == 0 || s[0] > |s| then false
    else if |s| == 1 then true
    else if s[1] == MANUFACTURER && (|s| < 4 || (s[2] == COMPANY_LO && s[3] == COMPANY_HI)) then
      |s| >= 4 && s[0] == |s|
    else s[0] < |s| && TouchesAfter(s[1 + s[0]..])
  }

  method ExtractManufacturerData(data: seq<byte>, after: byte) returns (payload: seq<byte>, ghost touched: bool)
    ensures payload == Extract(data, after)
    ensures touched <==> TouchesAfter(data)
  {
    var mem := data + [after];
    touched := false;
    var i := 0;
    while i < |data|
      invariant 0 <= i <= |data| + 1
      invariant i <= |data| ==> Extract(data, after) == Extract(data[i..], after)
      invariant i <= |data| ==> (TouchesAfter(data) <==> TouchesAfter(data[i..]))
      invariant i > |data| ==> Extract(data, after) == [] && (touched <==> TouchesAfter(data))
      invariant i <= |data| ==> !touched
      decreases |data| + 1 - i
    {
      ghost var s := data[i..];
      ghost var m := s + [after];
      assert m == mem[i..];
      var len := data[i];
      if len == 0 {
        break;
      }
      if i + len as int > |data| {
        break;
      }
      i := i + 1;
      var kind := mem[i];
      touched := touched || i >= |data|;
      if kind == MANUFACTURER {
        if |data| - i < 3 {
          return [], touched;
        }
        var company := mem[i + 1] as int + 256 * mem[i + 2] as int;
        touched := touched || i + 2 >= |data|;
        if company == COMPANY {
          if len < 3 {
            return [], touched;
          }
          payload := mem[i + 3..i + len as int];
          assert payload == m[4..1 + len as int];
          touched := touched || i + len as int > |data|;
          return;
        }
      }
      i := i + len as int;
      assert i <= |data| ==> s[1 + len as int..] == data[i..];
    }
    payload := [];
  }

  // ------------------------------------------------------------------ The grammar

  /** An AD structure: its type byte and the bytes after it. */
  datatype AdRecord = AdRecord(kind: byte, body: seq<byte>) {
    predicate Valid() {
      |body| <= 254
    }

    function Write(): (s: seq<byte>)
      requires Valid()
      ensures |s| == 2 + |body|
    {
      [1 + |body|, kind] + body
    }

    /** A manufacturer record of EnOcean. */
    predicate Matches() {
      kind == MANUFACTURER && |body| >= 2 && body[0] == COMPANY_LO && body[1] == COMPANY_HI
    }

    /** A manufacturer record too short to hold a company ID. */
    predicate Short() {
      kind == MANUFACTURER && |body| < 2
    }

    /** A short manufacturer record whose missing company ID is completed by the bytes that follow it. */
    predicate Decoy(rest: seq<byte>) {
      Short() && |body + rest| >= 2 && (body + rest)[0] == COMPANY_LO && (body + rest)[1] == COMPANY_HI
    }

    /** The record ends the walk when `rest` follows it. */
    predicate Stops(rest: seq<byte>) {
      Matches() || Decoy(rest) || (Short() && |body + rest| < 2)
    }
  }

  predicate Valid(rs: seq<AdRecord>) {
    forall r <- rs :: r.Valid()
  }

  function Write(rs: seq<AdRecord>): seq<byte>
    requires Valid(rs)
  {
    if rs == [] then [] else rs[0].Write() + Write(rs[1..])
  }

  /** Bytes after the last complete record at which the walk ends: nothing, early termination, or a record
  at least two bytes short. */
  predicate CleanEnd(tail: seq<byte>) {
    tail == [] || tail[0] == 0 || tail[0] > |tail|
  }

  /** A last record exactly one byte short: the case the length guard lets through. */
  predicate OneByteShort(tail: seq<byte>) {
    |tail| > 0 && tail[0] == |tail|
  }

  /** The bytes start as an EnOcean record. */
  predicate EnoceanStart(tail: seq<byte>) {
    |tail| >= 4 && tail[1..4] == [MANUFACTURER, COMPANY_LO, COMPANY_HI]
  }

  /** What the walk is for: the payload of the first EnOcean record, empty when there is none. A last record
  one byte short counts, completed by the byte after the buffer. */
  function FirstPayload(rs: seq<AdRecord>, tail: seq<byte>, after: byte): seq<byte> {
    if rs == [] then if OneByteShort(tail) && EnoceanStart(tail) then tail[4..] + [after] else []
    else if rs[0].Matches() then rs[0].body[2..]
    else FirstPayload(rs[1..], tail, after)
  }

  /** Before any EnOcean record, a short manufacturer record borrows the company ID 0x03DA. */
  predicate Misled(rs: seq<AdRecord>, tail: seq<byte>)
    requires Valid(rs)
  {
    rs != [] && !rs[0].Matches() && (rs[0].Decoy(Write(rs[1..]) + tail) || Misled(rs[1..], tail))
  }

  /** No record ends the walk before `tail`. */
  predicate Reaches(rs: seq<AdRecord>, tail: seq<byte>)
    requires Valid(rs)
  {
    rs == [] || (!rs[0].Stops(Write(rs[1..]) + tail) && Reaches(rs[1..], tail))
  }

  // ------------------------------------------------------------------ The walk against the grammar

  /** Every byte string is a sequence of complete records and one of the two kinds of ending. */
  function Parse(s: seq<byte>): (p: (seq<AdRecord>, seq<byte>))
    ensures Valid(p.0) && s == Write(p.0) + p.1
    ensures CleanEnd(p.1) || OneByteShort(p.1)
    decreases |s|
  {
    if CleanEnd(s) || OneByteShort(s) then ([], s)
    else
      var r := AdRecord(s[1], s[2..1 + s[0]]);
      var (rs, tail) := Parse(s[1 + s[0]..]);
      WriteFirst(r, rs, tail, s);
      ([r] + rs, tail)
  }

  lemma WriteFirst(r: AdRecord, rs: seq<AdRecord>, tail: seq<byte>, s: seq<byte>)
    requires r.Valid() && Valid(rs) && |s| >= 2 && 1 <= s[0] < |s|
    requires r == AdRecord(s[1], s[2..1 + s[0]]) && s[1 + s[0]..] == Write(rs) + tail
    ensures Valid([r] + rs) && s == Write([r] + rs) + tail
  {
  }

  /** One record of the walk. */
  lemma OneRecord(r: AdRecord, rest: seq<byte>, after: byte)
    requires r.Valid()
    ensures Extract(r.Write() + rest, after)
            == if r.Matches() then r.body[2..] else if r.Stops(rest) then [] else Extract(rest, after)
    ensures TouchesAfter(r.Write() + rest) <==> !r.Stops(rest) && TouchesAfter(rest)
  {
    var s := r.Write() + rest;
    assert s[1 + s[0]..] == rest;
    assert s[2..] == r.body + rest;
    if |s| >= 4 {
      assert s[2] == (r.body + rest)[0] && s[3] == (r.body + rest)[1];
      assert r.Matches() ==> (s + [after])[4..1 + s[0]] == r.body[2..];
    }
  }

  lemma WriteCons(rs: seq<AdRecord>, tail: seq<byte>)
    requires Valid(rs) && rs != []
    ensures Write(rs) + tail == rs[0].Write() + (Write(rs[1..]) + tail)
  {
  }

  /** The ending alone; one of at most one byte carries no payload. */
  lemma LastRecord(tail: seq<byte>, after: byte)
    requires CleanEnd(tail) || OneByteShort(tail)
    ensures Extract(tail, after) == FirstPayload([], tail, after)
    ensures |tail| < 2 ==> FirstPayload([], tail, after) == []
  {
    if OneByteShort(tail) && EnoceanStart(tail) {
      assert tail[1] == tail[1..4][0] && tail[2] == tail[1..4][1] && tail[3] == tail[1..4][2];
      assert (tail + [after])[4..1 + tail[0]] == tail[4..] + [after];
    }
  }

  /** On every buffer, split by `Parse` into complete records and an ending: the walk returns the payload of
  the first EnOcean record if and only if there is no such payload or no short manufacturer record before it
  borrows EnOcean's company ID; then it returns nothing. */
  lemma {:induction false} ExtractionExact(rs: seq<AdRecord>, tail: seq<byte>, after: byte)
    requires Valid(rs) && (CleanEnd(tail) || OneByteShort(tail))
    ensures Extract(Write(rs) + tail, after) == FirstPayload(rs, tail, after)
            <==> FirstPayload(rs, tail, after) == [] || !Misled(rs, tail)
    ensures Misled(rs, tail) ==> Extract(Write(rs) + tail, after) == []
  {
    if rs == [] {
      assert Write(rs) + tail == tail;
      LastRecord(tail, after);
    } else {
      var rest := Write(rs[1..]) + tail;
      WriteCons(rs, tail);
      OneRecord(rs[0], rest, after);
      ExtractionExact(rs[1..], tail, after);
      if |rest| < 2 {
        LastRecord(tail, after);
      }
    }
  }

  /** The company ID is borrowed in a well-formed advertisement of twelve bytes: the length byte of the name
  that follows a short manufacturer record completes it, and the EnOcean record after the name is lost. */
  lemma BorrowedCompanyHides()
    ensures var rs := [AdRecord(MANUFACTURER, [0xDA]), AdRecord(9, [0x41, 0x42]),
                       AdRecord(MANUFACTURER, [0xDA, 3, 0x55])];
            && Valid(rs)
            && Write(rs) == [2, 0xFF, 0xDA, 3, 9, 0x41, 0x42, 4, 0xFF, 0xDA, 3, 0x55]
            && FirstPayload(rs, [], 0) == [0x55]
            && Extract(Write(rs), 0) == []
  {
    var short, name := AdRecord(MANUFACTURER, [0xDA]), AdRecord(9, [0x41, 0x42]);
    var enocean := AdRecord(MANUFACTURER, [0xDA, 3, 0x55]);
    var rs := [short, name, enocean];
    assert rs[1..] == [name, enocean] && rs[1..][1..] == [enocean];
    assert Write([enocean]) == enocean.Write();
    assert Write([name, enocean]) == name.Write() + enocean.Write();
    assert FirstPayload([enocean], [], 0) == [0x55];
    assert Write(rs) == short.Write() + Write([name, enocean]);
  }

  lemma {:induction false} LongRecordsNeverMislead(rs: seq<AdRecord>, tail: seq<byte>)
    requires Valid(rs) && forall r <- rs :: !r.Short()
    ensures !Misled(rs, tail)
  {
    if rs != [] {
      LongRecordsNeverMislead(rs[1..], tail);
    }
  }

  /** The EnOcean record that carries `payload`. */
  function EnoceanRecord(payload: seq<byte>): (r: AdRecord)
    requires |payload| <= 252
    ensures r.Valid() && r.Matches()
  {
    AdRecord(MANUFACTURER, [COMPANY_LO, COMPANY_HI] + payload)
  }

  /** Encoding then extracting: the payload comes back whatever follows it, if no record before it ends the
  walk. If one does and is no EnOcean record itself, nothing comes back. */
  lemma {:induction false} ExtractUndoesWrite(others: seq<AdRecord>, payload: seq<byte>, rest: seq<byte>, after: byte)
    requires Valid(others) && |payload| <= 252
    ensures var tail := EnoceanRecord(payload).Write() + rest;
            && (Reaches(others, tail) ==> Extract(Write(others) + tail, after) == payload)
            && (!Reaches(others, tail) && (forall r <- others :: !r.Matches())
                ==> Extract(Write(others) + tail, after) == [])
  {
    var tail := EnoceanRecord(payload).Write() + rest;
    if others == [] {
      assert Write(others) + tail == tail;
      OneRecord(EnoceanRecord(payload), rest, after);
    } else {
      WriteCons(others, tail);
      OneRecord(others[0], Write(others[1..]) + tail, after);
      ExtractUndoesWrite(others[1..], payload, rest, after);
    }
  }

  /** Manufacturer records long enough for a company ID other than EnOcean's do not end the walk. */
  lemma {:induction false} LongRecordsReach(rs: seq<AdRecord>, tail: seq<byte>)
    requires Valid(rs) && forall r <- rs :: !r.Matches() && !r.Short()
    ensures Reaches(rs, tail)
  {
    if rs != [] {
      LongRecordsReach(rs[1..], tail);
    }
  }

  /** The walk reads the byte after the buffer, or returns a span that includes it, if and only if it reaches
  a last record one byte short that is a lone length byte or starts as an EnOcean record. Such a record may
  follow any others; nothing else leads outside. */
  lemma {:induction false} StaysInsideExact(rs: seq<AdRecord>, tail: seq<byte>)
    requires Valid(rs) && (CleanEnd(tail) || OneByteShort(tail))
    ensures TouchesAfter(Write(rs) + tail)
            <==> && Reaches(rs, tail)
                 && OneByteShort(tail)
                 && (|tail| == 1 || EnoceanStart(tail))
  {
    if rs == [] {
      assert Write(rs) + tail == tail;
    } else {
      WriteCons(rs, tail);
      OneRecord(rs[0], Write(rs[1..]) + tail, 0);
      StaysInsideExact(rs[1..], tail);
    }
  }

  /** The shortest buffers that lead outside: a lone length byte, and an EnOcean record one byte short, whose
  payload is the byte after the buffer. */
  lemma LeavesBuffer(after: byte)
    ensures TouchesAfter([1])
    ensures TouchesAfter([4, 0xFF, 0xDA, 3]) && Extract([4, 0xFF, 0xDA, 3], after) == [after]
  {
    var s: seq<byte> := [4, 0xFF, 0xDA, 3];
    assert s[1] == MANUFACTURER && (s + [after])[4..1 + s[0]] == [after];
  }

  /** When the walk does not touch the byte after the buffer, it does not matter. */
  lemma {:induction false} InsideIgnoresAfter(s: seq<byte>, a: byte, b: byte)
    requires !TouchesAfter(s)
    ensures Extract(s, a) == Extract(s, b)
    decreases |s|
  {
    if s == [] || s[0] == 0 || s[0] > |s| {
    } else {
      assert forall k | 0 <= k < |s| :: (s + [a])[k] == s[k] == (s + [b])[k];
      if s[1] == MANUFACTURER && |s| >= 4 && s[2] as int + 256 * s[3] as int == COMPANY {
        if s[0] >= 3 {
          assert (s + [a])[4..1 + s[0]] == s[4..1 + s[0]] == (s + [b])[4..1 + s[0]];
        }
      } else if s[0] < |s| {
        assert !(s[1] == MANUFACTURER && |s| < 4) ==> TouchesAfter(s) == TouchesAfter(s[1 + s[0]..]);
        if !(s[1] == MANUFACTURER && |s| < 4) {
          InsideIgnoresAfter(s[1 + s[0]..], a, b);
        }
      }
    }
  }

  /** `m` holds, from position `at`, the EnOcean record that carries `p`. */
  predicate RecordAt(m: seq<byte>, at: nat, p: seq<byte>)
    requires |p| <= 252
  {
    at + 4 + |p| <= |m| && m[at..at + 4 + |p|] == EnoceanRecord(p).Write()
  }

  lemma RecordAtShift(m: seq<byte>, i: nat, k: nat, p: seq<byte>)
    requires i <= |m| && |p| <= 252 && RecordAt(m[i..], k, p)
    ensures RecordAt(m, i + k, p)
  {
  }

  lemma RecordAtStart(m: seq<byte>)
    requires |m| >= 4 && 3 <= m[0] < |m|
    requires m[1..4] == [MANUFACTURER, COMPANY_LO, COMPANY_HI]
    ensures |m[4..1 + m[0]]| <= 252 && RecordAt(m, 0, m[4..1 + m[0]])
  {
  }

  /** Every payload the walk returns is that of an EnOcean record at some position of the bytes read. */
  lemma {:induction false} PayloadHasHeader(s: seq<byte>, after: byte) returns (at: nat)
    requires Extract(s, after) != []
    ensures RecordAt(s + [after], at, Extract(s, after))
    decreases |s|
  {
    hide RecordAt;
    var mem := s + [after];
    if mem[1] == MANUFACTURER && mem[2] as int + 256 * mem[3] as int == COMPANY {
      at := 0;
      assert mem[1..4] == [mem[1], mem[2], mem[3]];
      RecordAtStart(mem);
    } else {
      var next := 1 + s[0] as int;
      assert s[next..] + [after] == mem[next..];
      var k := PayloadHasHeader(s[next..], after);
      at := next + k;
      RecordAtShift(mem, next, k, Extract(s, after));
    }
  }
}
