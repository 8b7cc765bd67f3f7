// The collection schedule: the bin types and jobs of bindicator.go, the fixed 15-slot job
// table with getJobs/clearJobs, and the CSV parser of parse.go that fills it.
module Schedule {
  import opened Common

  /** BinType (bindicator.go), in declaration order: Unknown is the zero value. */
  datatype BinType = Unknown | Green | Black | Brown

  /** A scheduled collection (BinJob, bindicator.go): the date fields as stored. */
  datatype BinJob = BinJob(year: int, month: int, day: int, bin: BinType)

  /** maxJobs: the size of the pre-allocated job table. */
  const MaxJobs: nat := 15

  const Comma: Byte := ',' as int
  const Colon: Byte := ':' as int

  /** What the parser stores: a known bin and a date whose fields lie in the checked ranges
      (year from four digits, so at most 9999). */
  predicate ValidJob(j: BinJob)
  {
    j.bin != Unknown && 1 <= j.year <= 9999 && 1 <= j.month <= 12 && 1 <= j.day <= 31
  }

  /** The byte arithmetic `int(b - '0')` of atoi2/atoi4: a uint8 subtraction, so a byte below
      '0' wraps to a large value and fails the `> 9` test. */
  function DigitOf(b: Byte): (r: int)
    ensures 0 <= r < 256
    ensures r <= 9 <==> IsDigit(b)
    ensures IsDigit(b) ==> r == b - 48
  {
    (b - 48) % 256
  }

  /** atoi2 (parse.go): the value of the first two bytes when both are digits, else 0. */
  function Atoi2(s: seq<Byte>): (r: int)
    ensures 0 <= r <= 99
    ensures |s| >= 2 && AllDigits(s[..2]) ==> r == DecimalValue(s[..2])
    ensures !(|s| >= 2 && AllDigits(s[..2])) ==> r == 0
  {
    if |s| < 2 then 0
    else
      var d1, d2 := DigitOf(s[0]), DigitOf(s[1]);
      if d1 > 9 || d2 > 9 then
        assert s[..2][0] == s[0] && s[..2][1] == s[1];
        0
      else
        assert DecimalValue(s[..1]) == d1 by { assert s[..1][..0] == []; }
        assert DecimalValue(s[..2]) == d1 * 10 + d2 by { assert s[..2][..1] == s[..1]; }
        d1 * 10 + d2
  }

  /** atoi4 (parse.go): the value of the first four bytes when all are digits, else 0. */
  function Atoi4(s: seq<Byte>): (r: int)
    ensures 0 <= r <= 9999
    ensures |s| >= 4 && AllDigits(s[..4]) ==> r == DecimalValue(s[..4])
    ensures !(|s| >= 4 && AllDigits(s[..4])) ==> r == 0
  {
    if |s| < 4 then 0
    else
      var d1, d2, d3, d4 := DigitOf(s[0]), DigitOf(s[1]), DigitOf(s[2]), DigitOf(s[3]);
      if d1 > 9 || d2 > 9 || d3 > 9 || d4 > 9 then
        assert s[..4][0] == s[0] && s[..4][1] == s[1] && s[..4][2] == s[2] && s[..4][3] == s[3];
        0
      else
        assert DecimalValue(s[..1]) == d1 by { assert s[..1][..0] == []; }
        assert DecimalValue(s[..2]) == d1 * 10 + d2 by { assert s[..2][..1] == s[..1]; }
        assert DecimalValue(s[..3]) == d1 * 100 + d2 * 10 + d3 by { assert s[..3][..2] == s[..2]; }
        assert DecimalValue(s[..4]) == d1 * 1000 + d2 * 100 + d3 * 10 + d4 by { assert s[..4][..3] == s[..3]; }
        d1 * 1000 + d2 * 100 + d3 * 10 + d4
  }

  predicate IsLetter(b: Byte, upper: char) { b == upper as int || b == upper as int + 32 }

  /** parseBinType (parse.go): only the first letter (and, for B, the second), in either case,
      and a length of at least five decide the type. */
  function ParseBinType(s: seq<Byte>): (r: BinType)
    ensures r != Unknown ==> |s| >= 5
    ensures r == Green <==> |s| >= 5 && IsLetter(s[0], 'G')
    ensures r == Black <==> |s| >= 5 && IsLetter(s[0], 'B') && IsLetter(s[1], 'L')
    ensures r == Brown <==> |s| >= 5 && IsLetter(s[0], 'B') && IsLetter(s[1], 'R')
  {
    if |s| == 0 then Unknown
    else if IsLetter(s[0], 'G') then
      if |s| >= 5 then Green else Unknown
    else if IsLetter(s[0], 'B') then
      if |s| >= 5 then
        if IsLetter(s[1], 'L') then Black
        else if IsLetter(s[1], 'R') then Brown
        else Unknown
      else Unknown
    else Unknown
  }

  /** The upper-case name a schedule server sends for a known bin. */
  function BinName(b: BinType): string
  {
    match b
    case Green => "GREEN"
    case Black => "BLACK"
    case Brown => "BROWN"
    case Unknown => ""
  }

  function Lower(s: seq<Byte>): (r: seq<Byte>)
    ensures |r| == |s|
    ensures forall i :: 0 <= i < |s| ==> r[i] == (if 65 <= s[i] <= 90 then s[i] + 32 else s[i])
  {
    if s == [] then [] else [if 65 <= s[0] <= 90 then s[0] + 32 else s[0]] + Lower(s[1..])
  }

  /** Every known bin's name parses back to that bin, in upper or lower case. */
  lemma BinNameRoundTrip(b: BinType)
    requires b != Unknown
    ensures ParseBinType(Ascii(BinName(b))) == b
    ensures ParseBinType(Lower(Ascii(BinName(b)))) == b
  {
    var s := Ascii(BinName(b));
    assert |s| == 5 && s[0] == BinName(b)[0] as int && s[1] == BinName(b)[1] as int;
  }

  /** The index of the first `c` in s, or -1: the colon search of parseScheduleResponse. */
  function IndexOf(s: seq<Byte>, c: Byte): (r: int)
    ensures -1 <= r < |s|
  {
    if s == [] then -1
    else if s[0] == c then 0
    else
      var k := IndexOf(s[1..], c);
      if k == -1 then -1 else k + 1
  }

  /** IndexOf finds the first occurrence, and -1 exactly when there is none. */
  lemma {:induction false} IndexOfFacts(s: seq<Byte>, c: Byte)
    ensures IndexOf(s, c) >= 0 ==> s[IndexOf(s, c)] == c && forall i :: 0 <= i < IndexOf(s, c) ==> s[i] != c
    ensures IndexOf(s, c) == -1 <==> forall i :: 0 <= i < |s| ==> s[i] != c
  {
    if s != [] && s[0] != c {
      IndexOfFacts(s[1..], c);
    }
  }

  /** Where the current entry ends: at the first comma, or at the end of the data. */
  function FieldEnd(s: seq<Byte>): (r: nat)
    ensures r <= |s|
  {
    if s == [] || s[0] == Comma then 0 else 1 + FieldEnd(s[1..])
  }

  /** FieldEnd stops at the first comma: none before it, and a comma at it unless the data
      ran out. */
  lemma {:induction false} FieldEndFacts(s: seq<Byte>)
    ensures forall i :: 0 <= i < FieldEnd(s) ==> s[i] != Comma
    ensures FieldEnd(s) < |s| ==> s[FieldEnd(s)] == Comma
  {
    if s != [] && s[0] != Comma {
      FieldEndFacts(s[1..]);
    }
  }


  /** One "YYYY-MM-DD:TYPE" entry: stored iff it is at least 11 bytes long, its first colon is
      at index 10, the type is known and the date fields are in range. The separators at
      indexes 4 and 7 are not looked at. */
  function ParseEntry(entry: seq<Byte>): Option<BinJob>
  {
    if |entry| >= 11 && IndexOf(entry, Colon) == 10 then
      var year, month, day := Atoi4(entry[0..4]), Atoi2(entry[5..7]), Atoi2(entry[8..10]);
      var bt := ParseBinType(entry[11..]);
      if bt != Unknown && year > 0 && month > 0 && month <= 12 && day > 0 && day <= 31 then
        Some(BinJob(year, month, day, bt))
      else
        None
    else
      None
  }

  /** An entry is stored iff it has the shape "YYYY-MM-DD:TYPE" as far as the parser checks
      (11 bytes or more, first colon at index 10) and its fields pass the range checks; what
      is stored is always a valid job. */
  lemma ParseEntryAccepts(entry: seq<Byte>)
    ensures ParseEntry(entry).Some? ==> ValidJob(ParseEntry(entry).value)
    ensures ParseEntry(entry).Some? <==>
      |entry| >= 11 && IndexOf(entry, Colon) == 10 && ValidJob(EntryFields(entry))
    ensures ParseEntry(entry).Some? ==> ParseEntry(entry).value == EntryFields(entry)
  {
  }

  /** The fields read from an entry of at least 11 bytes, before the range checks. */
  function EntryFields(entry: seq<Byte>): BinJob
    requires |entry| >= 11
  {
    BinJob(Atoi4(entry[0..4]), Atoi2(entry[5..7]), Atoi2(entry[8..10]), ParseBinType(entry[11..]))
  }

  /** The comma-separated fields of s, in order (none for empty s; a trailing comma adds
      no empty field, as the entry loop stops at the end of the data). */
  function Fields(s: seq<Byte>): seq<seq<Byte>>
    decreases |s|
  {
    if s == [] then []
    else
      var e := FieldEnd(s);
      [s[..e]] + Fields(if e < |s| then s[e + 1..] else [])
  }

  lemma FieldsUnfold(s: seq<Byte>, e: nat, rest: seq<Byte>)
    requires s != [] && FieldEnd(s) == e
    requires rest == if e < |s| then s[e + 1..] else []
    ensures Fields(s) == [s[..e]] + Fields(rest)
  {
  }

  /** The jobs of the valid fields, in order; invalid fields are skipped. */
  function Keep(fields: seq<seq<Byte>>): seq<BinJob>
  {
    if fields == [] then [] else Stored(ParseEntry(fields[0])) + Keep(fields[1..])
  }

  /** The jobs of the valid comma-separated entries of s, in order; invalid entries are
      skipped and parsing goes on after them. */
  function AllJobs(s: seq<Byte>): seq<BinJob>
  {
    Keep(Fields(s))
  }

  /** The length of the leading run of decimal digits. */
  function LeadingDigits(s: seq<Byte>): (r: nat)
    ensures r <= |s| && AllDigits(s[..r])
    ensures r < |s| ==> !IsDigit(s[r])
  {
    if s == [] || !IsDigit(s[0]) then 0
    else
      var k := LeadingDigits(s[1..]);
      assert s[..k + 1] == [s[0]] + s[1..][..k];
      k + 1
  }

  const Int64Modulus: int := 0x1_0000_0000_0000_0000
  const Int64Half: int := 0x8000_0000_0000_0000

  /** Two's-complement wrap-around of a Go int64. */
  function Wrap64(x: int): (r: int)
    ensures -Int64Half <= r < Int64Half
    ensures -Int64Half <= x < Int64Half ==> r == x
  {
    (x + Int64Half) % Int64Modulus - Int64Half
  }

  /** parsedTimestamp: the value of the leading digits, accumulated in an int64. */
  function ScheduleTimestamp(data: seq<Byte>): int
  {
    Wrap64(DecimalValue(data[..LeadingDigits(data)]))
  }

  /** What follows the timestamp and the one comma that may follow it. */
  function AfterTimestamp(data: seq<Byte>): seq<Byte>
  {
    var k := LeadingDigits(data);
    if k < |data| && data[k] == Comma then data[k + 1..] else data[k..]
  }

  /** At most the first MaxJobs jobs. */
  function FirstJobs(jobs: seq<BinJob>): (r: seq<BinJob>)
    ensures |r| <= MaxJobs
  {
    if |jobs| <= MaxJobs then jobs else jobs[..MaxJobs]
  }

  /** The jobs parseScheduleResponse leaves in the table. */
  function ScheduleJobs(data: seq<Byte>): seq<BinJob>
  {
    FirstJobs(AllJobs(AfterTimestamp(data)))
  }

  /** Adding whole multiples of 2^64 does not change an int64 value. */
  lemma Wrap64Shift(x: int, k: int)
    ensures Wrap64(x + k * Int64Modulus) == Wrap64(x)
  {
    var y := x + Int64Half;
    DivModUnique(y + k * Int64Modulus, Int64Modulus, y / Int64Modulus + k, y % Int64Modulus);
  }

  /** One step of `t = t*10 + d` in int64 agrees with wrapping the exact value. */
  lemma Wrap64Step(a: int, d: int)
    ensures Wrap64(Wrap64(a) * 10 + d) == Wrap64(a * 10 + d)
  {
    var q := (a + Int64Half) / Int64Modulus;
    assert Wrap64(a) == a - q * Int64Modulus;
    assert Wrap64(a) * 10 + d == a * 10 + d + (-10 * q) * Int64Modulus;
    Wrap64Shift(a * 10 + d, -10 * q);
  }

  /** The job table: jobStorage, jobCount (bindicator.go) and parsedTimestamp (parse.go). */
  class JobTable {
    var slots: array<BinJob>
    var count: int
    var parsedTimestamp: int

    ghost predicate Valid()
      reads this`slots, this`count
    {
      slots.Length == MaxJobs && 0 <= count <= MaxJobs
    }

    /** getJobs: the first jobCount slots. */
    function Jobs(): (r: seq<BinJob>)
      reads this`slots, this`count, slots
      requires Valid()
      ensures |r| == count && r == slots[..count]
    {
      slots[..count]
    }

    constructor()
      ensures Valid() && fresh(slots) && count == 0 && parsedTimestamp == 0
    {
      slots := new BinJob[MaxJobs](_ => BinJob(0, 0, 0, Unknown));
      count := 0;
      parsedTimestamp := 0;
    }

    /** clearJobs: forget every job; the slots keep their stale contents. */
    method ClearJobs()
      requires Valid()
      modifies this`count
      ensures Valid() && count == 0 && Jobs() == []
    {
      count := 0;
    }

    /** The index of the first colon of data[lo..hi], relative to lo, or -1. */
    static method FindColon(data: seq<Byte>, lo: nat, hi: nat) returns (idx: int)
      requires lo <= hi <= |data|
      ensures idx == IndexOf(data[lo..hi], Colon)
    {
      var entry := data[lo..hi];
      idx := -1;
      var i := 0;
      while i < |entry|
        invariant 0 <= i <= |entry|
        invariant forall k :: 0 <= k < i ==> entry[k] != Colon
      {
        if entry[i] == Colon {
          idx := i;
          break;
        }
        i := i + 1;
      }
      IndexOfFacts(entry, Colon);
    }

    /** The end of the entry starting at `pos`: the next comma, or the end of the data. */
    static method FindComma(data: seq<Byte>, pos: nat) returns (entryEnd: nat)
      requires pos <= |data|
      ensures pos <= entryEnd <= |data| && forall k :: pos <= k < entryEnd ==> data[k] != Comma
      ensures entryEnd < |data| ==> data[entryEnd] == Comma
    {
      entryEnd := pos;
      while entryEnd < |data| && data[entryEnd] != Comma
        invariant pos <= entryEnd <= |data|
        invariant forall k :: pos <= k < entryEnd ==> data[k] != Comma
      {
        entryEnd := entryEnd + 1;
      }
    }

    /** The body of the entry loop for data[lo..hi]: store the entry's job if it is valid. */
    method StoreEntry(data: seq<Byte>, lo: nat, hi: nat)
      requires Valid() && count < MaxJobs && lo <= hi <= |data|
      modifies slots, this`count
      ensures Valid()
      ensures Jobs() == old(Jobs()) + Stored(ParseEntry(data[lo..hi]))
    {
      var entry := data[lo..hi];
      if |entry| >= 11 {
        var colonIdx := FindColon(data, lo, hi);
        if colonIdx == 10 {
          var year := Atoi4(entry[0..4]);
          var month := Atoi2(entry[5..7]);
          var day := Atoi2(entry[8..10]);
          var bt := ParseBinType(entry[colonIdx + 1..]);
          if bt != Unknown && year > 0 && month > 0 && month <= 12 && day > 0 && day <= 31 {
            slots[count] := BinJob(year, month, day, bt);
            assert slots[..count + 1] == old(slots[..count]) + [BinJob(year, month, day, bt)];
            count := count + 1;
          }
        }
      }
    }

    /** One turn of the entry loop: find the end of the entry at `pos` and store its job. */
    method ParseNext(data: seq<Byte>, pos: nat, ghost total: seq<BinJob>) returns (next: nat)
      requires Valid() && count < MaxJobs && pos < |data|
      requires Jobs() + AllJobs(Rest(data, pos)) == total
      modifies slots, this`count
      ensures Valid() && pos < next <= |data| + 1
      ensures Jobs() + AllJobs(Rest(data, next)) == total
    {
      var entryEnd := FindComma(data, pos);
      ghost var before := Jobs();
      StoreEntry(data, pos, entryEnd);
      next := entryEnd + 1;
      EntryLoopStep(data, pos, entryEnd, next, before, Jobs(), total);
    }

    /** parseScheduleResponse: clear the table, read the timestamp, then store the valid
        entries in order until the data or the table runs out; the result is the job count. */
    /** The leading run of digits, accumulated in a wrapping int64, and where it ends. */
    static method ReadTimestamp(data: seq<Byte>) returns (ts: int, pos: nat)
      ensures pos == LeadingDigits(data)
      ensures ts == ScheduleTimestamp(data)
    {
      ts := 0;
      pos := 0;
      while pos < |data| && IsDigit(data[pos])
        invariant 0 <= pos <= |data| && AllDigits(data[..pos])
        invariant ts == Wrap64(DecimalValue(data[..pos]))
      {
        assert data[..pos + 1][..pos] == data[..pos];
        Wrap64Step(DecimalValue(data[..pos]), data[pos] - 48);
        ts := Wrap64(ts * 10 + (data[pos] - 48));
        pos := pos + 1;
      }
      SameLeadingDigits(data, pos);
    }

    method ParseScheduleResponse(data: seq<Byte>) returns (n: int)
      requires Valid()
      modifies slots, this`count, this`parsedTimestamp
      ensures Valid() && n == count
      ensures parsedTimestamp == ScheduleTimestamp(data)
      ensures Jobs() == ScheduleJobs(data)
    {
      ClearJobs();
      parsedTimestamp := 0;
      if |data| == 0 {
        return 0;
      }
      var ts, pos := ReadTimestamp(data);
      parsedTimestamp := ts;
      if pos < |data| && data[pos] == Comma {
        pos := pos + 1;
      }
      ghost var body := data[pos..];
      assert body == AfterTimestamp(data);
      assert Jobs() == [] && Rest(data, pos) == body;
      ghost var total := AllJobs(body);
      while pos < |data| && count < MaxJobs
        invariant 0 <= pos <= |data| + 1 && Valid()
        invariant Jobs() + AllJobs(Rest(data, pos)) == total
        modifies slots, this`count
        decreases |data| + 1 - pos
      {
        pos := ParseNext(data, pos, total);
      }
      if count < MaxJobs {
        assert Jobs() == total;
      } else {
        assert Jobs() == total[..MaxJobs];
      }
      n := count;
    }
  }

  /** The jobs one entry adds to the table. */
  function Stored(parsed: Option<BinJob>): (r: seq<BinJob>)
    ensures |r| <= 1
  {
    match parsed
    case Some(job) => [job]
    case None => []
  }

  /** The data not yet looked at when the entry loop is at `pos` (past the end: nothing). */
  function Rest(data: seq<Byte>, pos: nat): seq<Byte>
  {
    if pos <= |data| then data[pos..] else []
  }

  /** The digit loop stops exactly at the end of the leading digit run. */
  lemma {:induction false} SameLeadingDigits(data: seq<Byte>, pos: nat)
    requires pos <= |data| && AllDigits(data[..pos])
    requires pos < |data| ==> !IsDigit(data[pos])
    ensures LeadingDigits(data) == pos
  {
    if pos > 0 {
      assert IsDigit(data[..pos][0]);
      assert data[1..][..pos - 1] == data[..pos][1..];
      SameLeadingDigits(data[1..], pos - 1);
    }
  }

  /** The comma search of the entry loop finds exactly FieldEnd. */
  lemma FieldEndUnique(s: seq<Byte>, e: nat)
    requires e <= |s| && forall i :: 0 <= i < e ==> s[i] != Comma
    requires e < |s| ==> s[e] == Comma
    ensures FieldEnd(s) == e
  {
    FieldEndFacts(s);
  }

  /** One turn of the entry loop keeps "jobs so far + jobs of the rest == all jobs". */
  lemma EntryLoopStep(data: seq<Byte>, lo: nat, hi: nat, next: nat,
                      before: seq<BinJob>, after: seq<BinJob>, total: seq<BinJob>)
    requires lo <= hi <= |data| && lo < |data| && next == hi + 1
    requires forall k :: lo <= k < hi ==> data[k] != Comma
    requires hi < |data| ==> data[hi] == Comma
    requires before + AllJobs(Rest(data, lo)) == total
    requires after == before + Stored(ParseEntry(data[lo..hi]))
    ensures after + AllJobs(Rest(data, next)) == total
  {
    var entry := data[lo..hi];
    var fields := Fields(Rest(data, next));
    EntryStep(data, lo, hi);
    assert Fields(Rest(data, lo)) == [entry] + fields;
    assert AllJobs(Rest(data, lo)) == Stored(ParseEntry(entry)) + Keep(fields) by {
      assert ([entry] + fields)[0] == entry && ([entry] + fields)[1..] == fields;
    }
    AppendAssoc(before, Stored(ParseEntry(entry)), Keep(fields));
  }

  /** One turn of the entry loop, on the reference side: the entry ending at `hi` is the first
      field of the remaining data, and parsing resumes after its comma. */
  lemma EntryStep(data: seq<Byte>, lo: nat, hi: nat)
    requires lo <= hi <= |data| && lo < |data|
    requires forall k :: lo <= k < hi ==> data[k] != Comma
    requires hi < |data| ==> data[hi] == Comma
    ensures Fields(Rest(data, lo)) == [data[lo..hi]] + Fields(Rest(data, hi + 1))
  {
    var s := data[lo..];
    var e := hi - lo;
    var rest := if e < |s| then s[e + 1..] else [];
    FieldEndUnique(s, e);
    FieldsUnfold(s, e, rest);
    assert s[..e] == data[lo..hi];
    assert rest == Rest(data, hi + 1);
    assert s == Rest(data, lo);
  }
}

// Properties of the parser: what it stores, and a round trip with the format a schedule server
// produces ("TIMESTAMP,YYYY-MM-DD:TYPE,...").
module ScheduleProperties {
  import opened Common
  import opened Schedule

  predicate NoComma(e: seq<Byte>)
  {
    forall i :: 0 <= i < |e| ==> e[i] != Comma
  }

  /** Every stored job is valid, and at most MaxJobs are kept. */
  lemma AllJobsValid(s: seq<Byte>)
    ensures forall j :: j in AllJobs(s) ==> ValidJob(j)
  {
    KeepValid(Fields(s));
  }

  lemma {:induction false} KeepValid(fields: seq<seq<Byte>>)
    ensures forall j :: j in Keep(fields) ==> ValidJob(j)
  {
    if fields != [] {
      ParseEntryAccepts(fields[0]);
      KeepValid(fields[1..]);
    }
  }

  lemma ScheduleJobsValid(data: seq<Byte>)
    ensures |ScheduleJobs(data)| <= MaxJobs
    ensures forall j :: j in ScheduleJobs(data) ==> ValidJob(j)
  {
    var all := AllJobs(AfterTimestamp(data));
    AllJobsValid(AfterTimestamp(data));
    assert forall j :: j in FirstJobs(all) ==> j in all;
  }

  /** Empty input: no jobs and timestamp 0. */
  lemma EmptyResponse()
    ensures ScheduleTimestamp([]) == 0 && ScheduleJobs([]) == []
  {
  }

  /** Entries are independent: a comma-free entry followed by a comma contributes its own job
      (or nothing) and parsing carries on with the rest, so invalid entries are skipped
      without stopping the parse and jobs keep their input order. */
  lemma AllJobsCons(e: seq<Byte>, rest: seq<Byte>)
    requires NoComma(e)
    ensures AllJobs(e + [Comma] + rest) == Stored(ParseEntry(e)) + AllJobs(rest)
  {
    var s := e + [Comma] + rest;
    assert Fields(s) == [e] + Fields(rest) by {
      assert s[..|e|] == e;
      FieldEndUnique(s, |e|);
      assert s[|e| + 1..] == rest;
      FieldsUnfold(s, |e|, rest);
    }
    assert ([e] + Fields(rest))[0] == e && ([e] + Fields(rest))[1..] == Fields(rest);
  }

  /** The last entry, with no comma after it. */
  lemma AllJobsLast(e: seq<Byte>)
    requires NoComma(e)
    ensures AllJobs(e) == Stored(ParseEntry(e))
  {
    if e != [] {
      assert Fields(e) == [e] by {
        assert e[..|e|] == e;
        FieldEndUnique(e, |e|);
        FieldsUnfold(e, |e|, []);
        assert Fields([]) == [];
      }
      assert [e][0] == e && [e][1..] == [];
      assert Keep([e]) == Stored(ParseEntry(e)) + Keep([]);
    }
  }

  predicate AllValid(jobs: seq<BinJob>)
  {
    forall i :: 0 <= i < |jobs| ==> ValidJob(jobs[i])
  }

  /** Zero-padded two- and four-digit fields. */
  function Pad2(n: int): (r: seq<Byte>)
    requires 0 <= n <= 99
    ensures |r| == 2
  {
    [48 + n / 10, 48 + n % 10]
  }

  function Pad4(n: int): (r: seq<Byte>)
    requires 0 <= n <= 9999
    ensures |r| == 4
  {
    Pad2(n / 100) + Pad2(n % 100)
  }

  const Dash: Byte := '-' as int

  /** A job as a schedule server writes it: "YYYY-MM-DD:TYPE". */
  function RenderEntry(j: BinJob): (r: seq<Byte>)
    requires ValidJob(j)
    ensures |r| == 16
  {
    Pad4(j.year) + [Dash] + Pad2(j.month) + [Dash] + Pad2(j.day) + [Colon] + Ascii(BinName(j.bin))
  }

  /** The entries joined by commas. */
  function JoinEntries(jobs: seq<BinJob>): seq<Byte>
    requires AllValid(jobs)
    decreases |jobs|
  {
    if jobs == [] then []
    else if |jobs| == 1 then RenderEntry(jobs[0])
    else RenderEntry(jobs[0]) + [Comma] + JoinEntries(jobs[1..])
  }

  /** A whole response: the decimal timestamp, then a comma and the entries when there are any. */
  function RenderSchedule(timestamp: nat, jobs: seq<BinJob>): seq<Byte>
    requires AllValid(jobs)
  {
    Decimal(timestamp) + (if jobs == [] then [] else [Comma] + JoinEntries(jobs))
  }

  lemma RenderEntryNoComma(j: BinJob)
    requires ValidJob(j)
    ensures NoComma(RenderEntry(j))
  {
    var r := RenderEntry(j);
    var name := Ascii(BinName(j.bin));
    assert |name| == 5;
    assert forall i :: 11 <= i < 16 ==> r[i] == name[i - 11];
    assert forall i :: 0 <= i < 5 ==> name[i] != Comma;
  }

  lemma Pad2Value(n: int)
    requires 0 <= n <= 99
    ensures Atoi2(Pad2(n)) == n
  {
  }

  lemma Pad4Value(n: int)
    requires 0 <= n <= 9999
    ensures Atoi4(Pad4(n)) == n
  {
    var h, l := n / 100, n % 100;
    assert (h / 10) * 1000 + (h % 10) * 100 == h * 100;
    assert (l / 10) * 10 + l % 10 == l;
  }

  /** The fields of a rendered entry sit where the parser looks for them. */
  lemma RenderEntryLayout(j: BinJob)
    requires ValidJob(j)
    ensures RenderEntry(j)[0..4] == Pad4(j.year)
    ensures RenderEntry(j)[5..7] == Pad2(j.month)
    ensures RenderEntry(j)[8..10] == Pad2(j.day)
    ensures RenderEntry(j)[11..] == Ascii(BinName(j.bin))
    ensures IndexOf(RenderEntry(j), Colon) == 10
  {
    var r := RenderEntry(j);
    assert r[10] == Colon;
    assert forall i :: 0 <= i < 10 ==> r[i] != Colon;
    IndexOfFacts(r, Colon);
  }

  /** A rendered entry parses back to its job. */
  lemma RenderEntryRoundTrip(j: BinJob)
    requires ValidJob(j)
    ensures ParseEntry(RenderEntry(j)) == Some(j)
  {
    RenderEntryLayout(j);
    BinNameRoundTrip(j.bin);
    Pad4Value(j.year);
    Pad2Value(j.month);
    Pad2Value(j.day);
  }

  /** The entries of a rendered job list parse back to that list. */
  lemma {:induction false} RenderedEntriesParse(jobs: seq<BinJob>)
    requires AllValid(jobs)
    ensures AllJobs(JoinEntries(jobs)) == jobs
    decreases |jobs|
  {
    if jobs != [] {
      var e := RenderEntry(jobs[0]);
      var rest := jobs[1..];
      assert NoComma(e) && ParseEntry(e) == Some(jobs[0]) by {
        RenderEntryNoComma(jobs[0]);
        RenderEntryRoundTrip(jobs[0]);
      }
      if rest == [] {
        assert JoinEntries(jobs) == e;
        AllJobsLast(e);
      } else {
        assert JoinEntries(jobs) == e + [Comma] + JoinEntries(rest);
        AllJobsCons(e, JoinEntries(rest));
        RenderedEntriesParse(rest);
      }
      assert jobs == [jobs[0]] + rest;
    }
  }

  /** The timestamp of a rendered response reads back. */
  lemma RenderedTimestamp(timestamp: nat, jobs: seq<BinJob>)
    requires timestamp < Int64Half && AllValid(jobs)
    ensures LeadingDigits(RenderSchedule(timestamp, jobs)) == |Decimal(timestamp)|
    ensures ScheduleTimestamp(RenderSchedule(timestamp, jobs)) == timestamp
  {
    var d := Decimal(timestamp);
    var data := RenderSchedule(timestamp, jobs);
    DecimalRoundTrip(timestamp);
    assert data[..|d|] == d;
    SameLeadingDigits(data, |d|);
  }

  /** After the timestamp and its comma come exactly the rendered entries. */
  lemma RenderedAfterTimestamp(timestamp: nat, jobs: seq<BinJob>)
    requires timestamp < Int64Half && AllValid(jobs)
    ensures AfterTimestamp(RenderSchedule(timestamp, jobs)) == JoinEntries(jobs)
  {
    var d := Decimal(timestamp);
    var r := if jobs == [] then [] else [Comma] + JoinEntries(jobs);
    assert RenderSchedule(timestamp, jobs) == d + r;
    RenderedTimestamp(timestamp, jobs);
    if jobs == [] {
      assert r == [];
    } else {
      assert r == [Comma] + JoinEntries(jobs);
      assert (d + r)[|d|] == Comma;
      assert (d + r)[|d| + 1..] == JoinEntries(jobs);
    }
  }

  /** Round trip: a response rendered from a timestamp below 2^63 and valid jobs parses back
      to that timestamp and the first MaxJobs of those jobs, in order. */
  lemma ScheduleRoundTrip(timestamp: nat, jobs: seq<BinJob>)
    requires timestamp < Int64Half
    requires AllValid(jobs)
    ensures ScheduleTimestamp(RenderSchedule(timestamp, jobs)) == timestamp
    ensures ScheduleJobs(RenderSchedule(timestamp, jobs)) == FirstJobs(jobs)
  {
    RenderedTimestamp(timestamp, jobs);
    RenderedAfterTimestamp(timestamp, jobs);
    RenderedEntriesParse(jobs);
  }

  /** More than MaxJobs valid entries: exactly MaxJobs are kept. */
  lemma TableFills(timestamp: nat, jobs: seq<BinJob>)
    requires timestamp < Int64Half && |jobs| > MaxJobs
    requires AllValid(jobs)
    ensures |ScheduleJobs(RenderSchedule(timestamp, jobs))| == MaxJobs
  {
    ScheduleRoundTrip(timestamp, jobs);
  }
}
