/** How a reader of a fragmented file gets the samples of a track fragment: explicit fields of the
    track run first, then the defaults of the fragment header, then those of the track (sections
    8.8.3, 8.8.7, 8.8.8 and 8.8.12 of ISO/IEC 14496-12). */
module FragmentReader {

  import opened Options

  /** trex: defaults of the whole track. */
  datatype Trex = Trex(duration: nat, size: nat, flags: nat)

  /** tfhd: defaults of one fragment; absent fields fall back to trex. */
  datatype Tfhd = Tfhd(duration: Option<nat>, size: Option<nat>, flags: Option<nat>)

  /** The fields a track run carries per sample. */
  datatype RunFields = RunFields(duration: bool, size: bool, flags: bool, ctsOffset: bool)

  /** trun: one record per sample, holding the present fields in the order duration, size, flags,
      composition offset. */
  datatype Trun = Trun(fields: RunFields, firstFlags: Option<nat>, records: seq<seq<nat>>)

  /** traf: tfdt, tfhd and the track run. */
  datatype Traf = Traf(baseDts: nat, tfhd: Tfhd, trun: Trun)

  datatype ReadSample = ReadSample(dts: nat, size: nat, flags: nat, ctsOffset: nat)

  function One(b: bool): nat { if b then 1 else 0 }

  function Stride(f: RunFields): nat { One(f.duration) + One(f.size) + One(f.flags) + One(f.ctsOffset) }

  function OrElse(o: Option<nat>, d: nat): nat {
    match o case Some(v) => v case None => d
  }

  ghost predicate WellFormedRun(r: Trun) {
    forall j | 0 <= j < |r.records| :: |r.records[j]| == Stride(r.fields)
  }

  function DurationOf(trex: Trex, t: Traf, j: nat): nat
    requires WellFormedRun(t.trun) && j < |t.trun.records|
  {
    if t.trun.fields.duration then t.trun.records[j][0] else OrElse(t.tfhd.duration, trex.duration)
  }

  function SizeOf(trex: Trex, t: Traf, j: nat): nat
    requires WellFormedRun(t.trun) && j < |t.trun.records|
  {
    var f := t.trun.fields;
    if f.size then t.trun.records[j][One(f.duration)] else OrElse(t.tfhd.size, trex.size)
  }

  function FlagsOf(trex: Trex, t: Traf, j: nat): nat
    requires WellFormedRun(t.trun) && j < |t.trun.records|
  {
    var f := t.trun.fields;
    if j == 0 && t.trun.firstFlags.Some? then t.trun.firstFlags.value
    else if f.flags then t.trun.records[j][One(f.duration) + One(f.size)]
    else OrElse(t.tfhd.flags, trex.flags)
  }

  function CtsOffsetOf(t: Traf, j: nat): nat
    requires WellFormedRun(t.trun) && j < |t.trun.records|
  {
    var f := t.trun.fields;
    if f.ctsOffset then t.trun.records[j][One(f.duration) + One(f.size) + One(f.flags)] else 0
  }

  /** Decode times add up from the fragment's base time. */
  function DtsOf(trex: Trex, t: Traf, j: nat): nat
    requires WellFormedRun(t.trun) && j <= |t.trun.records|
  {
    if j == 0 then t.baseDts else DtsOf(trex, t, j - 1) + DurationOf(trex, t, j - 1)
  }

  /** The first n samples of a fragment. */
  function Read(trex: Trex, t: Traf, n: nat): (r: seq<ReadSample>)
    requires WellFormedRun(t.trun) && n <= |t.trun.records|
    ensures |r| == n
    ensures forall j | 0 <= j < n ::
      r[j] == ReadSample(DtsOf(trex, t, j), SizeOf(trex, t, j), FlagsOf(trex, t, j), CtsOffsetOf(t, j))
  {
    if n == 0 then []
    else
      var last := ReadSample(DtsOf(trex, t, n - 1), SizeOf(trex, t, n - 1), FlagsOf(trex, t, n - 1),
        CtsOffsetOf(t, n - 1));
      Read(trex, t, n - 1) + [last]
  }

  /** All samples of a list of fragments. */
  function ReadAll(trex: Trex, ts: seq<Traf>): seq<ReadSample>
    requires forall i | 0 <= i < |ts| :: WellFormedRun(ts[i].trun)
  {
    if ts == [] then []
    else
      var t := ts[|ts| - 1];
      ReadAll(trex, ts[..|ts| - 1]) + Read(trex, t, |t.trun.records|)
  }
}
