/** The pure part of `tpm2_pcr_read` (pcrread.rs): each requested register
    list is cut into runs of at most eight registers, because one response
    carries at most eight digests; each run becomes a three-byte bitmap and
    each bitmap one TPM2_PCR_Read command. The device exchange that follows
    is not part of this model. */
module PcrChunking {
  import opened Wire
  import opened InOut
  import opened Tcg
  import opened Commands
  import opened Bitmap
  import opened PcrRead

  /** `PCRSelection`: a hash algorithm and a list of register indices.
      pcrs.rs is not part of this model; only the two getters are used. */
  datatype PcrSelection = PcrSelection(algo: TpmiAlgHash, pcrs: seq<nat>)

  /** Registers per command: a `TPML_DIGEST` holds at most eight digests. */
  const ChunkSize: nat := 8

  /** `vec![0x00, 0x00, 0x00]`. */
  const EmptyMap: seq<byte> := [0, 0, 0]

  /** Every index names a register of the three-byte map; the source has no
      range check and indexes the map out of bounds otherwise. */
  predicate InRange(ps: seq<nat>) {
    forall i :: 0 <= i < |ps| ==> ps[i] < 24
  }

  predicate AllInRange(sels: seq<PcrSelection>) {
    forall i :: 0 <= i < |sels| ==> InRange(sels[i].pcrs)
  }

  /** No two positions of the list hold the same register. */
  predicate Distinct(ps: seq<nat>) {
    forall i, j :: 0 <= i < j < |ps| ==> ps[i] != ps[j]
  }

  /** The registers a list names, each once. */
  function Elements(ps: seq<nat>): set<nat> {
    set x | x in ps
  }

  function Min(a: nat, b: nat): nat {
    if a <= b then a else b
  }

  // ------------------------------------------------------------- the bitmap

  /** The map after or-ing in the registers at positions lo .. hi - 1 of
      the list, one after another, starting from an empty map. */
  function RunMap(ps: seq<nat>, lo: nat, hi: nat): (bm: seq<byte>)
    requires InRange(ps) && lo <= hi <= |ps|
    ensures |bm| == 3
    decreases hi - lo
  {
    if hi == lo then EmptyMap else SetRegister(RunMap(ps, lo, hi - 1), ps[hi - 1])
  }

  /** The map of a whole run. */
  function BitmapOf(ps: seq<nat>): (bm: seq<byte>)
    requires InRange(ps)
    ensures |bm| == 3
  {
    RunMap(ps, 0, |ps|)
  }

  /** The map of positions lo .. hi - 1 selects exactly the registers held
      at those positions. */
  lemma {:induction false} RunMapSelects(ps: seq<nat>, lo: nat, hi: nat, r: nat)
    requires InRange(ps) && lo <= hi <= |ps|
    ensures Selects(RunMap(ps, lo, hi), r) <==> exists i :: lo <= i < hi && ps[i] == r
    decreases hi - lo
  {
    if hi == lo {
      if r / 8 < 3 {
        NoBitOfZero(r % 8);
      }
    } else {
      RunMapSelects(ps, lo, hi - 1, r);
      SetRegisterSelects(RunMap(ps, lo, hi - 1), ps[hi - 1], r);
      if exists i :: lo <= i < hi && ps[i] == r {
        var i :| lo <= i < hi && ps[i] == r;
        if i < hi - 1 {
          assert lo <= i < hi - 1 && ps[i] == r;
        }
      }
    }
  }

  /** The bitmap of a run selects exactly the registers of the run. */
  lemma BitmapOfSelects(ps: seq<nat>, r: nat)
    requires InRange(ps)
    ensures Selects(BitmapOf(ps), r) <==> r in ps
  {
    RunMapSelects(ps, 0, |ps|, r);
  }

  /** The map of the first n positions of a slice is the map of the same
      positions of the whole list. */
  lemma {:induction false} RunMapSlice(ps: seq<nat>, a: nat, b: nat, n: nat)
    requires InRange(ps) && a <= b <= |ps| && n <= b - a
    ensures RunMap(ps[a..b], 0, n) == RunMap(ps, a, a + n)
  {
    if n > 0 {
      RunMapSlice(ps, a, b, n - 1);
      assert ps[a..b][n - 1] == ps[a + n - 1];
    }
  }

  /** A list has at most as many distinct elements as positions, and
      exactly as many when no element repeats. */
  lemma {:induction false} SetCard(s: seq<nat>)
    ensures |Elements(s)| <= |s|
    ensures Distinct(s) ==> |Elements(s)| == |s|
  {
    if |s| > 0 {
      var tail := Elements(s[1..]);
      SetCard(s[1..]);
      assert Elements(s) == tail + {s[0]};
      assert |tail + {s[0]}| <= |tail| + 1;
      if Distinct(s) {
        assert Distinct(s[1..]);
        assert s[0] !in tail;
        assert |tail + {s[0]}| == |tail| + 1;
      }
    }
  }

  /** The bitmap of a run has one bit per distinct register of the run. */
  lemma PopcountOfBitmap(ps: seq<nat>)
    requires InRange(ps)
    ensures Popcount(BitmapOf(ps)) == |Elements(ps)|
    ensures Popcount(BitmapOf(ps)) <= |ps|
    ensures Distinct(ps) ==> Popcount(BitmapOf(ps)) == |ps|
  {
    var regs := SelectedRegisters(BitmapOf(ps));
    forall r: nat
      ensures r in regs <==> r in ps
    {
      SelectedRegistersMembers(BitmapOf(ps), r);
      BitmapOfSelects(ps, r);
    }
    assert Elements(regs) == Elements(ps);
    RegistersInIncreasing(BitmapOf(ps), 0, 8 * |BitmapOf(ps)|);
    assert Distinct(regs);
    SetCard(regs);
    SetCard(ps);
  }

  // ------------------------------------------------------------- the chunks

  /** The runs the loop closes: eight registers at a time, and whatever is
      left at the end. */
  function Partition(ps: seq<nat>): seq<seq<nat>>
    decreases |ps|
  {
    if |ps| == 0 then []
    else if |ps| <= ChunkSize then [ps]
    else [ps[..ChunkSize]] + Partition(ps[ChunkSize..])
  }

  /** There are ⌈N/8⌉ runs, and run k is positions 8k up to 8k + 8 (or the
      end of the list). */
  lemma {:induction false} PartitionShape(ps: seq<nat>)
    ensures |Partition(ps)| == (|ps| + 7) / 8
    ensures forall k :: 0 <= k < |Partition(ps)| ==> Partition(ps)[k] == ps[8 * k..Min(8 * k + 8, |ps|)]
    decreases |ps|
  {
    if |ps| > ChunkSize {
      var rest := ps[ChunkSize..];
      PartitionShape(rest);
      forall k | 0 <= k < |Partition(ps)|
        ensures Partition(ps)[k] == ps[8 * k..Min(8 * k + 8, |ps|)]
      {
        if k > 0 {
          assert Partition(ps)[k] == Partition(rest)[k - 1];
          assert rest[8 * (k - 1)..Min(8 * (k - 1) + 8, |rest|)] == ps[8 * k..Min(8 * k + 8, |ps|)];
        }
      }
    } else if |ps| > 0 {
      assert ps[0..|ps|] == ps;
    }
  }

  /** The runs of a list within range are within range. */
  lemma ChunksInRange(ps: seq<nat>)
    requires InRange(ps)
    ensures forall k :: 0 <= k < |Partition(ps)| ==> InRange(Partition(ps)[k])
  {
    PartitionShape(ps);
  }

  /** The bitmaps that are sent, one per run, in order. */
  function ChunkMaps(ps: seq<nat>): seq<seq<byte>>
    requires InRange(ps)
  {
    ChunksInRange(ps);
    var cs := Partition(ps);
    seq(|cs|, k requires 0 <= k < |cs| => BitmapOf(cs[k]))
  }

  /** Bitmap k is the map of positions 8k .. 8k + 7 of the list. */
  lemma ChunkMapAt(ps: seq<nat>, k: nat)
    requires InRange(ps) && k < |ChunkMaps(ps)|
    ensures 8 * k < |ps| && ChunkMaps(ps)[k] == RunMap(ps, 8 * k, Min(8 * k + 8, |ps|))
  {
    var lo, hi := 8 * k, Min(8 * k + 8, |ps|);
    assert lo < hi <= |ps| && Partition(ps)[k] == ps[lo..hi] by {
      PartitionShape(ps);
    }
    assert ChunkMaps(ps)[k] == BitmapOf(ps[lo..hi]);
    RunMapSlice(ps, lo, hi, hi - lo);
  }

  /** A list of N registers is sent as ⌈N/8⌉ bitmaps. */
  lemma ChunkCount(ps: seq<nat>)
    requires InRange(ps)
    ensures |ChunkMaps(ps)| == (|ps| + 7) / 8
  {
    PartitionShape(ps);
  }

  /** Each bitmap selects at most eight registers: one per distinct
      register of its run. */
  lemma ChunkPopcount(ps: seq<nat>, k: nat)
    requires InRange(ps) && k < |ChunkMaps(ps)|
    ensures Popcount(ChunkMaps(ps)[k]) <= ChunkSize
    ensures Popcount(ChunkMaps(ps)[k]) == |Elements(Partition(ps)[k])|
  {
    PartitionShape(ps);
    ChunksInRange(ps);
    PopcountOfBitmap(Partition(ps)[k]);
  }

  /** Bitmap k selects exactly the registers at positions 8k .. 8k + 7. */
  lemma ChunkSelects(ps: seq<nat>, k: nat, r: nat)
    requires InRange(ps) && k < |ChunkMaps(ps)|
    ensures Selects(ChunkMaps(ps)[k], r) <==> exists i :: 8 * k <= i < Min(8 * k + 8, |ps|) && ps[i] == r
  {
    ChunkMapAt(ps, k);
    RunMapSelects(ps, 8 * k, Min(8 * k + 8, |ps|), r);
  }

  /** Together the bitmaps select exactly the requested registers. */
  lemma ChunkUnion(ps: seq<nat>, r: nat)
    requires InRange(ps)
    ensures (exists k :: 0 <= k < |ChunkMaps(ps)| && Selects(ChunkMaps(ps)[k], r)) <==> r in ps
  {
    ChunkCount(ps);
    if r in ps {
      var i :| 0 <= i < |ps| && ps[i] == r;
      var k := i / 8;
      ChunkSelects(ps, k, r);
      assert 8 * k <= i < Min(8 * k + 8, |ps|);
      assert Selects(ChunkMaps(ps)[k], r);
    }
    if exists k :: 0 <= k < |ChunkMaps(ps)| && Selects(ChunkMaps(ps)[k], r) {
      var k :| 0 <= k < |ChunkMaps(ps)| && Selects(ChunkMaps(ps)[k], r);
      ChunkSelects(ps, k, r);
    }
  }

  /** When no register is requested twice, no register is selected by two
      bitmaps. */
  lemma ChunksDisjoint(ps: seq<nat>, j: nat, k: nat, r: nat)
    requires InRange(ps) && Distinct(ps)
    requires j < k < |ChunkMaps(ps)|
    ensures !(Selects(ChunkMaps(ps)[j], r) && Selects(ChunkMaps(ps)[k], r))
  {
    ChunkSelects(ps, j, r);
    ChunkSelects(ps, k, r);
  }

  // ----------------------------------------------------------- the commands

  /** The selection list sent for one bitmap: a single selection of the
      chunk's algorithm with a three-byte map. */
  function ChunkSelection(algo: TpmiAlgHash, bm: seq<byte>): TpmlPcrSelection {
    TpmlPcrSelection(1, [TpmsPcrSelection(algo, 3, bm)])
  }

  /** The command built for one three-byte bitmap, written out: the header
      with tag `TPM_ST_NO_SESSION`, size 20 and the PCR_Read code, then the
      chunk's selection list. `ChunkCommandSize` shows it is the command
      `PcrReadCommand::new` builds. */
  function CommandFor(algo: TpmiAlgHash, bm: seq<byte>): PcrReadCommand {
    PcrReadCommand(CommandHeader(TPM_ST_NO_SESSION, 20, TPM_CC_PCR_READ), ChunkSelection(algo, bm))
  }

  /** `PcrReadCommand::new` builds the written-out chunk command, which packs
      to the twenty bytes its size field gives, and the corrected constructor
      builds the same command; `new` never fails, so the early return on its
      error is never taken. */
  lemma ChunkCommandSize(algo: TpmiAlgHash, bm: seq<byte>)
    requires |bm| == 3
    ensures NewPcrReadCommand(TPM_ST_NO_SESSION, ChunkSelection(algo, bm)) == Ok(CommandFor(algo, bm))
    ensures |EncodePcrReadCommand(CommandFor(algo, bm))| == 20
    ensures NewPcrReadCommandChecked(TPM_ST_NO_SESSION, ChunkSelection(algo, bm))
         == NewPcrReadCommand(TPM_ST_NO_SESSION, ChunkSelection(algo, bm))
  {
    var l := ChunkSelection(algo, bm);
    SelectionListLength(l);
    assert SelectionsLength(l.pcrSelections) == 6;
    CommandSizeMatches(TPM_ST_NO_SESSION, l);
    CheckedAgreesWhenFits(TPM_ST_NO_SESSION, l);
  }

  /** The TPM reads the single selection back from a chunk command. */
  lemma ChunkCommandDecodes(algo: TpmiAlgHash, bm: seq<byte>)
    requires |bm| == 3
    ensures DecodeSelectionList(EncodePcrReadCommand(CommandFor(algo, bm))[HeaderSize..])
         == Ok((ChunkSelection(algo, bm), []))
  {
    CommandLayout(CommandFor(algo, bm));
  }

  /** The commands issued for one requested selection, in order. */
  function ChunkCommands(sel: PcrSelection): seq<PcrReadCommand>
    requires InRange(sel.pcrs)
  {
    CommandsOf(sel.algo, ChunkMaps(sel.pcrs))
  }

  /** One command per map, in the order of the maps. */
  function CommandsOf(algo: TpmiAlgHash, maps: seq<seq<byte>>): (cmds: seq<PcrReadCommand>)
    ensures |cmds| == |maps|
    ensures forall k :: 0 <= k < |maps| ==> cmds[k] == CommandFor(algo, maps[k])
  {
    if |maps| == 0 then []
    else CommandsOf(algo, maps[..|maps| - 1]) + [CommandFor(algo, maps[|maps| - 1])]
  }

  /** A further map adds its command at the end. */
  lemma CommandsOfSnoc(algo: TpmiAlgHash, maps: seq<seq<byte>>, m: seq<byte>)
    ensures CommandsOf(algo, maps + [m]) == CommandsOf(algo, maps) + [CommandFor(algo, m)]
  {
    assert (maps + [m])[..|maps|] == maps;
  }

  /** The commands issued for a list of selections, in order. */
  function ReadCommands(sels: seq<PcrSelection>): seq<PcrReadCommand>
    requires AllInRange(sels)
    decreases |sels|
  {
    if |sels| == 0 then []
    else ReadCommands(sels[..|sels| - 1]) + ChunkCommands(sels[|sels| - 1])
  }

  /** The maps of the first n runs. */
  function MapsUpTo(ps: seq<nat>, n: nat): seq<seq<byte>>
    requires InRange(ps) && 8 * n < |ps| + 8
  {
    if n == 0 then [] else MapsUpTo(ps, n - 1) + [RunMap(ps, 8 * (n - 1), Min(8 * n, |ps|))]
  }

  /** The maps of the first n runs are the first n chunk maps. */
  lemma {:induction false} MapsUpToAt(ps: seq<nat>, n: nat)
    requires InRange(ps) && 8 * n < |ps| + 8
    ensures |MapsUpTo(ps, n)| == n
    ensures forall k :: 0 <= k < n ==> MapsUpTo(ps, n)[k] == RunMap(ps, 8 * k, Min(8 * k + 8, |ps|))
  {
    if n > 0 {
      MapsUpToAt(ps, n - 1);
    }
  }

  /** The maps of all the runs are the chunk maps. */
  lemma MapsUpToAll(ps: seq<nat>, n: nat)
    requires InRange(ps) && n == (|ps| + 7) / 8
    ensures MapsUpTo(ps, n) == ChunkMaps(ps)
  {
    MapsUpToAt(ps, n);
    ChunkCount(ps);
    forall k | 0 <= k < n
      ensures MapsUpTo(ps, n)[k] == ChunkMaps(ps)[k]
    {
      ChunkMapAt(ps, k);
    }
  }

  /** Or-ing in the next register extends the run by one position. */
  lemma RunMapStep(ps: seq<nat>, lo: nat, hi: nat)
    requires InRange(ps) && lo <= hi < |ps|
    ensures RunMap(ps, lo, hi + 1) == SetRegister(RunMap(ps, lo, hi), ps[hi])
  {
  }

  /** Closing run n appends its map to the maps of the runs before. */
  lemma CloseRun(ps: seq<nat>, maps: seq<seq<byte>>, start: nat, next: nat)
    requires InRange(ps) && start < next <= |ps|
    requires start == 8 * |maps| && next == Min(start + 8, |ps|)
    requires maps == MapsUpTo(ps, |maps|)
    ensures maps + [RunMap(ps, start, next)] == MapsUpTo(ps, |maps| + 1)
  {
  }

  /** A count c of runs of eight that covers n positions, with the last run
      not empty, is n / 8 rounded up. */
  lemma RunCount(n: nat, c: nat)
    requires n <= 8 * c < n + 8
    ensures c == (n + 7) / 8
  {
  }

  /** What the inner loop knows before position index: the closed runs'
      maps so far, the run now open (positions start .. index - 1) and its
      map and count. */
  ghost predicate Scanned(ps: seq<nat>, index: nat, start: nat, pcrMap: seq<byte>, pcrCount: nat, maps: seq<seq<byte>>)
    requires InRange(ps)
  {
    && start <= index <= |ps| && pcrCount == index - start && pcrCount < ChunkSize
    && start <= 8 * |maps| < start + 8
    && (start < |ps| ==> start == 8 * |maps|)
    && (index == |ps| ==> pcrCount == 0)
    && pcrMap == RunMap(ps, start, index)
    && maps == MapsUpTo(ps, |maps|)
  }

  /** One turn of the inner loop keeps what it knows: or-ing in the register
      at position index, and closing the run after the eighth register or
      the last one. */
  lemma ScanStep(ps: seq<nat>, index: nat, start: nat, pcrMap: seq<byte>, pcrCount: nat, maps: seq<seq<byte>>)
    requires InRange(ps) && index < |ps|
    requires Scanned(ps, index, start, pcrMap, pcrCount, maps)
    ensures var m := SetRegister(pcrMap, ps[index]);
            if pcrCount + 1 == ChunkSize || index == |ps| - 1
            then Scanned(ps, index + 1, index + 1, EmptyMap, 0, maps + [m])
            else Scanned(ps, index + 1, start, m, pcrCount + 1, maps)
  {
    RunMapStep(ps, start, index);
    if pcrCount + 1 == ChunkSize || index == |ps| - 1 {
      CloseRun(ps, maps, start, index + 1);
    }
  }

  /** When the scan is over, the closed runs' maps are the chunk maps. */
  lemma ScanDone(ps: seq<nat>, start: nat, pcrMap: seq<byte>, pcrCount: nat, maps: seq<seq<byte>>)
    requires InRange(ps) && Scanned(ps, |ps|, start, pcrMap, pcrCount, maps)
    ensures maps == ChunkMaps(ps)
  {
    RunCount(|ps|, |maps|);
    MapsUpToAll(ps, |maps|);
  }

  /** The maps closed so far are the first chunk maps. */
  lemma ClosedMaps(ps: seq<nat>, maps: seq<seq<byte>>)
    requires InRange(ps) && 8 * |maps| < |ps| + 8
    requires maps == MapsUpTo(ps, |maps|)
    ensures |maps| <= |ChunkMaps(ps)|
    ensures maps == ChunkMaps(ps)[..|maps|]
  {
    ChunkCount(ps);
    MapsUpToAt(ps, |maps|);
    forall k | 0 <= k < |maps|
      ensures maps[k] == ChunkMaps(ps)[k]
    {
      ChunkMapAt(ps, k);
    }
  }

  /** The commands of a prefix of the maps are a prefix of the commands. */
  lemma CommandsOfPrefix(algo: TpmiAlgHash, maps: seq<seq<byte>>, n: nat)
    requires n <= |maps|
    ensures CommandsOf(algo, maps[..n]) == CommandsOf(algo, maps)[..n]
  {
  }

  /** The commands closed so far are the first chunk commands. */
  lemma ClosedPrefix(sel: PcrSelection, maps: seq<seq<byte>>)
    requires InRange(sel.pcrs) && 8 * |maps| < |sel.pcrs| + 8
    requires maps == MapsUpTo(sel.pcrs, |maps|)
    ensures |maps| <= |ChunkCommands(sel)|
    ensures CommandsOf(sel.algo, maps) == ChunkCommands(sel)[..|maps|]
  {
    ClosedMaps(sel.pcrs, maps);
    CommandsOfPrefix(sel.algo, ChunkMaps(sel.pcrs), |maps|);
  }

  /** One more selection adds its chunk commands at the end. */
  lemma ReadCommandsSnoc(sels: seq<PcrSelection>, i: nat)
    requires AllInRange(sels) && i < |sels|
    ensures ReadCommands(sels[..i + 1]) == ReadCommands(sels[..i]) + ChunkCommands(sels[i])
  {
    assert sels[..i + 1][..i] == sels[..i];
  }

  /** The commands of the first j selections come first among the commands
      of all of them. */
  lemma {:induction false} ReadCommandsPrefix(sels: seq<PcrSelection>, j: nat)
    requires AllInRange(sels) && j <= |sels|
    ensures |ReadCommands(sels[..j])| <= |ReadCommands(sels)|
    ensures ReadCommands(sels)[..|ReadCommands(sels[..j])|] == ReadCommands(sels[..j])
    decreases |sels|
  {
    if j == |sels| {
      assert sels[..j] == sels;
    } else {
      var front := sels[..|sels| - 1];
      ReadCommandsPrefix(front, j);
      assert front[..j] == sels[..j];
    }
  }

  // ---------------------------------------------------------- the exchanges

  /** The bytes in the response buffer after exchange k. The device is a
      parameter: `replies[k]` is what it delivered for the k-th command, and
      an exchange beyond the list delivered nothing. A failed `send_recv` is
      only printed, so the response is parsed whatever happened. */
  function Reply(replies: seq<seq<byte>>, k: nat): seq<byte> {
    if k < |replies| then replies[k] else []
  }

  /** `PcrReadResponse::new` on the response of exchange k, then
      `to_pcr_values` as written. */
  function Answer(replies: seq<seq<byte>>, k: nat): Result<seq<PcrEntry>> {
    var resp :- NewPcrReadResponse(Reply(replies, k));
    ToPcrValues(resp)
  }

  /** The outcome of every exchange, by position: the PCR values of the
      k-th response, or the error that rejects it. */
  type Outcomes = nat -> Result<seq<PcrEntry>>

  /** The outcomes of the exchanges with a device that replies `replies`. */
  function AnswersOf(replies: seq<seq<byte>>): (answers: Outcomes)
    ensures forall k: nat :: answers(k) == Answer(replies, k)
  {
    (k: nat) => Answer(replies, k)
  }

  /** The first exchange in lo .. hi - 1 whose response is rejected, or hi
      when every one is accepted. */
  function FirstRejected(answers: Outcomes, lo: nat, hi: nat): (m: nat)
    requires lo <= hi
    ensures lo <= m <= hi
    ensures forall k :: lo <= k < m ==> answers(k).Ok?
    ensures m < hi ==> answers(m).Err?
    decreases hi - lo
  {
    if lo == hi then hi
    else if answers(lo).Err? then lo
    else FirstRejected(answers, lo + 1, hi)
  }

  /** Any index with the three properties of the first rejection is it. */
  lemma FirstRejectedUnique(answers: Outcomes, lo: nat, hi: nat, m: nat)
    requires lo <= m <= hi
    requires forall k :: lo <= k < m ==> answers(k).Ok?
    requires m < hi ==> answers(m).Err?
    ensures FirstRejected(answers, lo, hi) == m
  {
  }

  /** The first n exchanges were accepted, and `values` holds their PCR
      values. */
  ghost predicate AllAnswered(answers: Outcomes, n: nat, values: seq<seq<PcrEntry>>) {
    |values| == n && forall k :: 0 <= k < n ==> answers(k) == Ok(values[k])
  }

  /** One more accepted exchange adds its values at the end. */
  lemma AnsweredSnoc(answers: Outcomes, n: nat, values: seq<seq<PcrEntry>>, v: seq<PcrEntry>)
    requires AllAnswered(answers, n, values) && answers(n) == Ok(v)
    ensures AllAnswered(answers, n + 1, values + [v])
  {
  }

  /** What a read over the commands `all`, after `lo` accepted exchanges,
      reports: the commands up to and including the first rejected one, or
      all of them; the values of the accepted exchanges; and the rejected
      exchange's error, if there is one. */
  ghost predicate Reported<T>(answers: Outcomes, lo: nat, all: seq<T>, sent: seq<T>,
                              values: seq<seq<PcrEntry>>, failure: Option<Error>)
  {
    && lo <= |all|
    && var m := FirstRejected(answers, lo, |all|);
    && |values| == m && (forall k :: 0 <= k < m ==> answers(k) == Ok(values[k]))
    && (m < |all| ==> sent == all[..m + 1] && failure == Some(answers(m).error))
    && (m == |all| ==> sent == all && failure == None)
  }

  /** A read over the commands `all` whose last sent command was the first
      rejected one ends with what a read stopping there reports: the values
      of the accepted exchanges, and the commands up to the rejected one. */
  lemma StoppedOutcome<T>(answers: Outcomes, lo: nat, all: seq<T>, sent: seq<T>,
                          values: seq<seq<PcrEntry>>, failure: Option<Error>, n: nat)
    requires lo <= n && |sent| == n + 1 <= |all| && sent == all[..n + 1]
    requires AllAnswered(answers, n, values)
    requires answers(n).Err? && failure == Some(answers(n).error)
    ensures Reported(answers, lo, all, sent, values, failure)
  {
    FirstRejectedUnique(answers, lo, |all|, n);
  }

  /** A read that sent all of `all` with every exchange accepted reports
      all their values and no failure. */
  lemma FinishedOutcome<T>(answers: Outcomes, lo: nat, all: seq<T>, sent: seq<T>,
                           values: seq<seq<PcrEntry>>, failure: Option<Error>)
    requires lo <= |sent| && sent == all && failure == None
    requires AllAnswered(answers, |sent|, values)
    ensures Reported(answers, lo, all, sent, values, failure)
  {
    FirstRejectedUnique(answers, lo, |all|, |all|);
  }

  /** What the whole read reports after `lo` accepted exchanges and then a
      selection whose commands `part`, which begin the commands `all`, ended
      with a rejection: the first rejection among all the commands, with its
      error. */
  lemma StopCarries<T>(answers: Outcomes, lo: nat, earlier: seq<seq<PcrEntry>>, part: seq<T>, all: seq<T>,
                       sent: seq<T>, values: seq<seq<PcrEntry>>, error: Error)
    requires lo <= |part| <= |all| && all[..|part|] == part
    requires AllAnswered(answers, lo, earlier)
    requires Reported(answers, lo, part, sent, values, Some(error))
    ensures var m := FirstRejected(answers, 0, |all|);
            && |values| == m && (forall k :: 0 <= k < m ==> answers(k) == Ok(values[k]))
            && (m < |all| ==> sent == all[..m + 1] && error == answers(m).error)
            && (m == |all| ==> sent == all && error == NotImplemented)
  {
    var m := FirstRejected(answers, lo, |part|);
    FirstRejectedUnique(answers, 0, |all|, m);
    assert all[..m + 1] == part[..m + 1];
  }

  /** The exchange of the last closed map is the one that fails: the read
      has sent the commands of the selections before and of the maps closed
      so far, which begin the commands of the selections before and of this
      one. */
  lemma StopsAt(sel: PcrSelection, before: seq<PcrReadCommand>, maps: seq<seq<byte>>)
    requires InRange(sel.pcrs) && 8 * |maps| < |sel.pcrs| + 8
    requires maps == MapsUpTo(sel.pcrs, |maps|)
    ensures |before| + |maps| <= |before + ChunkCommands(sel)|
    ensures before + CommandsOf(sel.algo, maps) == (before + ChunkCommands(sel))[..|before| + |maps|]
  {
    ClosedPrefix(sel, maps);
    AppendPrefix(before, CommandsOf(sel.algo, maps), ChunkCommands(sel), |maps|);
  }

  /** Appending after a concatenation appends to its second part. */
  lemma AppendSnoc<T>(front: seq<T>, b: seq<T>, x: T)
    ensures front + b + [x] == front + (b + [x])
  {
  }

  /** A prefix stays a prefix behind a common front. */
  lemma AppendPrefix<T>(front: seq<T>, b: seq<T>, c: seq<T>, n: nat)
    requires n == |b| <= |c| && b == c[..n]
    ensures |front| + n <= |front + c| && front + b == (front + c)[..|front| + n]
  {
  }

  /** The exchange for one closed map: build its command, send it, and
      either stop at a rejected response, reporting its error, or record the
      PCR values of the accepted one. `maps` are the maps this selection
      closed before, `before` the commands of the selections before. */
  method Exchange(sel: PcrSelection, answers: Outcomes, before: seq<PcrReadCommand>, ghost maps: seq<seq<byte>>,
                  pcrMap: seq<byte>, sent: seq<PcrReadCommand>, values: seq<seq<PcrEntry>>)
    returns (sentAfter: seq<PcrReadCommand>, valuesAfter: seq<seq<PcrEntry>>, failure: Option<Error>)
    requires InRange(sel.pcrs) && 8 * |maps| < |sel.pcrs| && |pcrMap| == 3
    requires maps + [pcrMap] == MapsUpTo(sel.pcrs, |maps| + 1)
    requires sent == before + CommandsOf(sel.algo, maps) && AllAnswered(answers, |sent|, values)
    ensures failure.None? ==> && sentAfter == before + CommandsOf(sel.algo, maps + [pcrMap])
                              && AllAnswered(answers, |sentAfter|, valuesAfter)
    ensures failure.Some? ==> Reported(answers, |before|, before + ChunkCommands(sel), sentAfter, valuesAfter, failure)
  {
    ghost var closed := maps + [pcrMap];
    // `PcrReadCommand::new` never fails: its error return is not taken.
    var command := NewPcrReadCommand(TPM_ST_NO_SESSION, ChunkSelection(sel.algo, pcrMap)).value;
    assert command == CommandFor(sel.algo, pcrMap) by {
      ChunkCommandSize(sel.algo, pcrMap);
    }
    assert sent + [command] == before + CommandsOf(sel.algo, closed) by {
      CommandsOfSnoc(sel.algo, maps, pcrMap);
      AppendSnoc(before, CommandsOf(sel.algo, maps), command);
    }
    sentAfter := sent + [command];
    var answer := answers(|sent|);
    if answer.Err? {
      valuesAfter, failure := values, Some(answer.error);
      StopsAt(sel, before, closed);
      assert |sentAfter| == |before| + |closed| == |sent| + 1;
      StoppedOutcome(answers, |before|, before + ChunkCommands(sel), sentAfter, valuesAfter, failure, |sent|);
    } else {
      AnsweredSnoc(answers, |sent|, values, answer.value);
      valuesAfter, failure := values + [answer.value], None;
    }
  }

  /** One turn of the outer loop of `tpm2_pcr_read`, the inner loop over one
      selection's registers: or each register into the map and count it;
      after the eighth register or the last one, build the command for the
      map, exchange it, and either stop at a rejected response or record its
      PCR values and start a fresh map. `before` and `earlier` are the
      commands and values of the selections before. */
  method ReadSelection(sel: PcrSelection, answers: Outcomes, before: seq<PcrReadCommand>, earlier: seq<seq<PcrEntry>>)
    returns (sent: seq<PcrReadCommand>, values: seq<seq<PcrEntry>>, failure: Option<Error>)
    requires InRange(sel.pcrs) && AllAnswered(answers, |before|, earlier)
    ensures Reported(answers, |before|, before + ChunkCommands(sel), sent, values, failure)
  {
    var ps := sel.pcrs;
    sent, values, failure := before, earlier, None;
    var pcrMap := EmptyMap;
    var pcrCount := 0;
    ghost var start := 0;
    ghost var maps: seq<seq<byte>> := [];
    for index := 0 to |ps|
      invariant Scanned(ps, index, start, pcrMap, pcrCount, maps)
      invariant sent == before + CommandsOf(sel.algo, maps)
      invariant AllAnswered(answers, |sent|, values)
    {
      ScanStep(ps, index, start, pcrMap, pcrCount, maps);
      pcrMap := SetRegister(pcrMap, ps[index]);
      pcrCount := pcrCount + 1;
      if pcrCount == ChunkSize || index == |ps| - 1 {
        sent, values, failure := Exchange(sel, answers, before, maps, pcrMap, sent, values);
        if failure.Some? {
          return;
        }
        maps := maps + [pcrMap];
        pcrMap := EmptyMap;
        pcrCount := 0;
        start := index + 1;
      }
    }
    ScanDone(ps, start, pcrMap, pcrCount, maps);
    failure := None;
    FinishedOutcome(answers, |before|, before + ChunkCommands(sel), sent, values, failure);
  }

  /** The outer loop of `tpm2_pcr_read`: the selections one after another.
      The commands go out in the order of the partition, and the first
      rejected response ends the read with its error; when every response is
      accepted, the read ends with the "not implemented" error. */
  method ReadPcrs(sels: seq<PcrSelection>, answers: Outcomes)
    returns (sent: seq<PcrReadCommand>, values: seq<seq<PcrEntry>>, error: Error)
    requires AllInRange(sels)
    ensures var all := ReadCommands(sels);
            var m := FirstRejected(answers, 0, |all|);
            && |values| == m && (forall k :: 0 <= k < m ==> answers(k) == Ok(values[k]))
            && (m < |all| ==> sent == all[..m + 1] && error == answers(m).error)
            && (m == |all| ==> sent == all && error == NotImplemented)
  {
    sent, values := [], [];
    for i := 0 to |sels|
      invariant sent == ReadCommands(sels[..i])
      invariant AllAnswered(answers, |sent|, values)
    {
      ghost var before, earlier := sent, values;
      var failure;
      sent, values, failure := ReadSelection(sels[i], answers, sent, values);
      ReadCommandsSnoc(sels, i);
      if failure.Some? {
        error := failure.value;
        ReadCommandsPrefix(sels, i + 1);
        StopCarries(answers, |before|, earlier, ReadCommands(sels[..i + 1]), ReadCommands(sels), sent, values, error);
        return;
      }
    }
    assert sels[..|sels|] == sels;
    FirstRejectedUnique(answers, 0, |sent|, |sent|);
    error := NotImplemented;
  }

  /** `tpm2_pcr_read` against a device that replies `replies`: the commands
      it sends, the PCR values it collects, and the error it returns. */
  method TpmPcrRead(sels: seq<PcrSelection>, replies: seq<seq<byte>>)
    returns (sent: seq<PcrReadCommand>, values: seq<seq<PcrEntry>>, error: Error)
    requires AllInRange(sels)
    ensures var all := ReadCommands(sels);
            var m := FirstRejected(AnswersOf(replies), 0, |all|);
            && |values| == m && (forall k :: 0 <= k < m ==> Answer(replies, k) == Ok(values[k]))
            && (m < |all| ==> sent == all[..m + 1] && error == Answer(replies, m).error)
            && (m == |all| ==> sent == all && error == NotImplemented)
  {
    sent, values, error := ReadPcrs(sels, AnswersOf(replies));
  }

  /** Registers 0 to 9 of one algorithm: two commands, registers 0 to 7 as
      the map FF 00 00 and registers 8 and 9 as 00 03 00. */
  const TenRegisters: seq<nat> := [0, 1, 2, 3, 4, 5, 6, 7, 8, 9]

  /** A run of registers 0, 1, 2, ... from position 0 fills byte 0 bit by
      bit. */
  lemma FillStep(ps: seq<nat>, k: nat, b: byte)
    requires InRange(ps) && k < 8 && k < |ps| && ps[k] == k
    requires RunMap(ps, 0, k) == [b, 0x00, 0x00]
    ensures RunMap(ps, 0, k + 1) == [b | Mask(k), 0x00, 0x00]
  {
  }

  lemma FirstRunOfTen()
    ensures InRange(TenRegisters)
    ensures RunMap(TenRegisters, 0, 8) == [0xFF, 0x00, 0x00]
  {
    var ps := TenRegisters;
    FillStep(ps, 0, 0x00);
    FillStep(ps, 1, 0x01);
    FillStep(ps, 2, 0x03);
    FillStep(ps, 3, 0x07);
    FillStep(ps, 4, 0x0F);
    FillStep(ps, 5, 0x1F);
    FillStep(ps, 6, 0x3F);
    FillStep(ps, 7, 0x7F);
  }

  lemma SecondRunOfTen()
    ensures InRange(TenRegisters)
    ensures RunMap(TenRegisters, 8, 10) == [0x00, 0x03, 0x00]
  {
  }

  lemma TenRegistersChunks()
    ensures InRange(TenRegisters)
    ensures ChunkMaps(TenRegisters) == [[0xFF, 0x00, 0x00], [0x00, 0x03, 0x00]]
  {
    var ps := TenRegisters;
    assert InRange(ps) by {
      FirstRunOfTen();
    }
    var maps := ChunkMaps(ps);
    assert |maps| == 2 by {
      ChunkCount(ps);
    }
    assert maps[0] == [0xFF, 0x00, 0x00] by {
      ChunkMapAt(ps, 0);
      FirstRunOfTen();
    }
    assert maps[1] == [0x00, 0x03, 0x00] by {
      ChunkMapAt(ps, 1);
      SecondRunOfTen();
    }
  }

  /** The TPM answers the second command of the ten-register read with the
      two digests of registers 8 and 9. `to_pcr_values` as written looks for
      digest 8 and rejects that answer. */
  lemma SecondRunRejected(algo: TpmiAlgHash, resp: PcrReadResponse)
    requires resp.pcrSelectionIn == ChunkSelection(algo, [0x00, 0x03, 0x00])
    requires |resp.pcrValues.digests| == 2
    ensures ToPcrValues(resp).Err?
  {
    var bm: seq<byte> := [0x00, 0x03, 0x00];
    var regs := SelectedRegisters(bm);
    assert 8 in regs by {
      assert Selects(bm, 8);
      RegistersInMembers(bm, 0, 24, 8);
    }
    var k :| 0 <= k < |regs| && regs[k] == 8;
    var keys := SelectedKeys(resp.pcrSelectionIn.pcrSelections);
    assert keys[k] == PcrKey(algo, 8) by {
      assert resp.pcrSelectionIn.pcrSelections[1..] == [];
      assert keys == KeysOf(algo, regs) + SelectedKeys([]);
    }
    assert ToPcrValues(resp).Ok? ==> RegistersPresent(keys, resp.pcrValues.digests) by {
      ToPcrValuesByRegister(resp);
    }
  }

  /** Reading registers 0 to 9 from such a TPM: the first answer is
      accepted and the second rejected, so the read sends both commands and
      stops there, with the second answer's error, before the "not
      implemented" return. */
  lemma TenRegistersReadStops(algo: TpmiAlgHash, answers: Outcomes, resp: PcrReadResponse)
    requires answers(0).Ok? && answers(1) == ToPcrValues(resp)
    requires resp.pcrSelectionIn == ChunkSelection(algo, [0x00, 0x03, 0x00])
    requires |resp.pcrValues.digests| == 2
    ensures AllInRange([PcrSelection(algo, TenRegisters)])
    ensures var all := ReadCommands([PcrSelection(algo, TenRegisters)]);
            |all| == 2 && FirstRejected(answers, 0, |all|) == 1
  {
    var sels := [PcrSelection(algo, TenRegisters)];
    TenRegistersChunks();
    assert sels[..0] == [];
    assert |ReadCommands(sels)| == 2;
    SecondRunRejected(algo, resp);
    FirstRejectedUnique(answers, 0, 2, 1);
  }
}
