/**
  Delete-log retention (`src-tauri/src/crdt/cleanup.rs:227-310`), in HLC integer units.
 */
module Retention {
  import opened Wrappers
  import opened HlcText
  import Store

  const NS_PER_DAY: nat := 24 * 60 * 60 * 1_000_000_000
  const I64_MAX: nat := 0x7FFF_FFFF_FFFF_FFFF
  const U32_BOUND: nat := 0x1_0000_0000

  function SaturatingMul(a: nat, b: nat): nat {
    if a * b < U64_BOUND then a * b else U64_BOUND - 1
  }

  function SaturatingSub(a: nat, b: nat): nat {
    if a >= b then a - b else 0
  }

  function ComputeCutoff(current: nat, retentionDays: nat): Option<nat>
    requires current < U64_BOUND && retentionDays < U32_BOUND
  {
    var cutoff := SaturatingSub(current, SaturatingMul(retentionDays, NS_PER_DAY));
    if cutoff <= I64_MAX then Some(cutoff) else None
  }

  /** Saturation never shows: the cutoff is the exact difference, floored at zero. */
  lemma {:induction false} CutoffIsExact(current: nat, retentionDays: nat)
    requires current < U64_BOUND && retentionDays < U32_BOUND
    ensures var ns := retentionDays * 86_400_000_000_000;
            var exact := if current >= ns then current - ns else 0;
            ComputeCutoff(current, retentionDays) == if exact <= I64_MAX then Some(exact) else None
  {
  }

  /** `CAST(substr(haex_hlc, 1, instr(haex_hlc, '/') - 1) AS INTEGER)` of a printed timestamp;
      SQLite clamps a number beyond its range. */
  function SqlTime(t: Timestamp): nat {
    if t.time <= I64_MAX then t.time else I64_MAX
  }

  /** The delete log, as id to row HLC, which may be NULL. */
  type Log = map<Store.Name, Option<Timestamp>>

  /** What `cleanup_deleted_rows` leaves of the log; `hlc` is the persisted clock. */
  function Kept(log: Log, retentionDays: nat, hlc: Option<Timestamp>): Log
    requires retentionDays < U32_BOUND && (hlc.Some? ==> hlc.value.Valid())
  {
    if retentionDays == 0 then map[]
    else if hlc.None? then log
    else match ComputeCutoff(hlc.value.time, retentionDays)
      case None => log
      case Some(cutoff) => map id | id in log && (log[id].None? || SqlTime(log[id].value) >= cutoff) :: log[id]
  }

  /** With a persisted clock an entry is kept exactly if it has no timestamp, or its time is at least
      the clock's minus the retention, or that bound does not fit an i64; zero days keep nothing. */
  lemma {:induction false} KeptExactly(log: Log, retentionDays: nat, hlc: Timestamp, id: Store.Name)
    requires retentionDays < U32_BOUND && hlc.Valid()
    ensures id !in Kept(log, 0, Some(hlc)) && id !in Kept(log, 0, None)
    ensures retentionDays > 0 ==>
            (id in Kept(log, retentionDays, Some(hlc)) <==>
             && id in log
             && (|| log[id].None? || log[id].value.time + retentionDays * 86_400_000_000_000 >= hlc.time
                 || hlc.time > 0x7FFF_FFFF_FFFF_FFFF + retentionDays * 86_400_000_000_000))
    ensures id in Kept(log, retentionDays, Some(hlc)) ==> Kept(log, retentionDays, Some(hlc))[id] == log[id]
    ensures retentionDays > 0 ==> Kept(log, retentionDays, None) == log
  {
    CutoffIsExact(hlc.time, retentionDays);
  }

  /** A longer positive retention keeps everything a shorter one keeps, if the shorter one's
      cutoff is defined; the longer one's then is too. */
  lemma {:induction false} LongerKeepsMore(log: Log, shorter: nat, longer: nat, hlc: Timestamp)
    requires 0 < shorter <= longer < U32_BOUND && hlc.Valid()
    requires ComputeCutoff(hlc.time, shorter).Some?
    ensures ComputeCutoff(hlc.time, longer).Some?
    ensures Kept(log, shorter, Some(hlc)).Keys <= Kept(log, longer, Some(hlc)).Keys
  {
    CutoffIsExact(hlc.time, shorter);
    CutoffIsExact(hlc.time, longer);
    assert shorter * NS_PER_DAY <= longer * NS_PER_DAY;
  }

  /** Where the shorter retention's cutoff does not fit, it deletes nothing, and the longer one
      may delete more. */
  lemma {:induction false} OverflowKeepsAll(log: Log, retentionDays: nat, hlc: Timestamp)
    requires 0 < retentionDays < U32_BOUND && hlc.Valid()
    ensures ComputeCutoff(hlc.time, retentionDays).None? <==> hlc.time > I64_MAX + retentionDays * NS_PER_DAY
    ensures ComputeCutoff(hlc.time, retentionDays).None? ==> Kept(log, retentionDays, Some(hlc)) == log
  {
    CutoffIsExact(hlc.time, retentionDays);
  }
}
