/** The reader's statistics: the last error code and the error and success
    counters readVal keeps (readingerrcode, readingerrcount,
    readingsuccesscount). The counters are 16-bit and wrap around. */
module Stats {
  import opened Frames

  const Modulus: nat := 0x1_0000

  datatype Statistics = Statistics(code: ErrorCode, errors: uint16, successes: uint16)

  /** The state of a freshly constructed reader. */
  const Cleared := Statistics(NoError, 0, 0)

  /** `x++` on a uint16_t. */
  function Inc16(x: uint16): (r: uint16)
    ensures r == (x + 1) % Modulus
  {
    if x == Modulus - 1 then 0 else x + 1
  }

  /** The bookkeeping at the end of readVal: an error overwrites the last
      error code and counts as an error, a success only counts as a success. */
  function Record(s: Statistics, o: Outcome): (r: Statistics)
    ensures r.code == if o.Err? then o.code else s.code
    ensures r.errors == if o.Err? then (s.errors + 1) % Modulus else s.errors
    ensures r.successes == if o.Ok? then (s.successes + 1) % Modulus else s.successes
  {
    match o
    case Err(e) => Statistics(e, Inc16(s.errors), s.successes)
    case Ok(_) => s.(successes := Inc16(s.successes))
  }

  /** The statistics after the reads whose outcomes are `os`, in order. */
  function RecordAll(s: Statistics, os: seq<Outcome>): Statistics
    decreases |os|
  {
    if os == [] then s else Record(RecordAll(s, os[..|os| - 1]), os[|os| - 1])
  }

  /** How many of the outcomes are errors. */
  function Errors(os: seq<Outcome>): (n: nat)
    ensures n <= |os|
  {
    if os == [] then 0 else Errors(os[..|os| - 1]) + (if os[|os| - 1].Err? then 1 else 0)
  }

  /** The code of the last error among `os`, or `code` if there is none. */
  function LastError(os: seq<Outcome>, code: ErrorCode): ErrorCode
    decreases |os|
  {
    if os == [] then code
    else if os[|os| - 1].Err? then os[|os| - 1].code
    else LastError(os[..|os| - 1], code)
  }

  lemma ModInc(a: nat)
    ensures ((a % Modulus) + 1) % Modulus == (a + 1) % Modulus
  {
  }

  /** What the statistics mean: over any history of reads, the error counter
      is the number of errors and the success counter the number of successes
      (both modulo 2^16), and the error code is that of the most recent
      error; a successful read never resets it. */
  lemma {:induction false} RecordAllSummary(s: Statistics, os: seq<Outcome>)
    ensures RecordAll(s, os) == Statistics(
      LastError(os, s.code),
      (s.errors + Errors(os)) % Modulus,
      (s.successes + |os| - Errors(os)) % Modulus)
    decreases |os|
  {
    if os != [] {
      var init, last := os[..|os| - 1], os[|os| - 1];
      RecordAllSummary(s, init);
      var before := RecordAll(s, init);
      assert RecordAll(s, os) == Record(before, last);
      if last.Err? {
        assert Errors(os) == Errors(init) + 1;
        ModInc(s.errors + Errors(init));
      } else {
        assert Errors(os) == Errors(init);
        ModInc(s.successes + |init| - Errors(init));
      }
    }
  }

  /** Every read adds exactly one to the sum of the two counters (modulo 2^16). */
  lemma RecordCountsOneRead(s: Statistics, o: Outcome)
    ensures (Record(s, o).errors + Record(s, o).successes) % Modulus
      == (s.errors + s.successes + 1) % Modulus
  {
  }
}
