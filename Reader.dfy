/**
 * `read_files`: the dict-of-list accumulators that every stored event
 * extends by one entry each, and the loops over files and frames that
 * fill them.
 */
module Reader {
  import opened Pulses
  import opened Events

  /** The frames of several files, file after file. */
  function AllFrames(files: seq<seq<Frame>>): seq<Frame> {
    if files == [] then [] else AllFrames(files[..|files| - 1]) + files[|files| - 1]
  }

  /** The records of the frames that are stored, in frame order. */
  function Kept(frames: seq<Frame>, pulseType: string): seq<Record> {
    if frames == [] then []
    else
      var last := Select(frames[|frames| - 1], pulseType);
      Kept(frames[..|frames| - 1], pulseType) + (if last.Some? then [last.value] else [])
  }

  lemma {:induction false} KeptAppend(a: seq<Frame>, b: seq<Frame>, pulseType: string)
    ensures Kept(a + b, pulseType) == Kept(a, pulseType) + Kept(b, pulseType)
    decreases |b|
  {
    if b == [] {
      assert a + b == a;
    } else {
      var init := b[..|b| - 1];
      assert (a + b)[..|a + b| - 1] == a + init;
      assert (a + b)[|a + b| - 1] == b[|b| - 1];
      KeptAppend(a, init, pulseType);
    }
  }

  /** Every stored record is the record of one of the frames. */
  lemma {:induction false} KeptSound(frames: seq<Frame>, pulseType: string, n: int)
    requires 0 <= n < |Kept(frames, pulseType)|
    ensures exists j :: 0 <= j < |frames| && Select(frames[j], pulseType) == Some(Kept(frames, pulseType)[n])
  {
    var init := frames[..|frames| - 1];
    if n < |Kept(init, pulseType)| {
      KeptSound(init, pulseType, n);
      var j :| 0 <= j < |init| && Select(init[j], pulseType) == Some(Kept(init, pulseType)[n]);
      assert frames[j] == init[j];
    }
  }

  /** Every frame that passes the rules is stored. */
  lemma {:induction false} KeptComplete(frames: seq<Frame>, pulseType: string, j: int)
    requires 0 <= j < |frames| && Select(frames[j], pulseType).Some?
    ensures Select(frames[j], pulseType).value in Kept(frames, pulseType)
  {
    var init := frames[..|frames| - 1];
    if j < |frames| - 1 {
      assert init[j] == frames[j];
      KeptComplete(init, pulseType, j);
    }
  }

  /** Every stored label has exactly one of track/cascade and of CC/NC, and length 0 unless a track. */
  lemma KeptWellFormed(frames: seq<Frame>, pulseType: string)
    ensures forall r :: r in Kept(frames, pulseType) ==> WellFormedLabel(r.labels)
  {
    forall r | r in Kept(frames, pulseType) ensures WellFormedLabel(r.labels) {
      var n :| 0 <= n < |Kept(frames, pulseType)| && Kept(frames, pulseType)[n] == r;
      KeptSound(frames, pulseType, n);
      var j :| 0 <= j < |frames| && Select(frames[j], pulseType) == Some(r);
      SelectRecord(frames[j], pulseType);
    }
  }

  /** A pulse type other than "uncleaned" and "cleaned" stores nothing. */
  lemma {:induction false} UnknownPulseTypeKeepsNothing(frames: seq<Frame>, pulseType: string)
    requires pulseType != Uncleaned && pulseType != Cleaned
    ensures Kept(frames, pulseType) == []
  {
    if frames != [] {
      UnknownPulseTypeKeepsNothing(frames[..|frames| - 1], pulseType);
      SelectKeptIff(frames[|frames| - 1], pulseType);
    }
  }

  /** The keys of the `labels` dictionary. */
  datatype LabelKey = Energy | Azimuth | Zenith | DirX | DirY | DirZ
                    | IsTrack | IsCascade | IsNC | IsCC | TrackLength

  /** The keys of the `reco` dictionary. */
  datatype RecoKey = RecoEnergy | RecoZenith | RecoAzimuth

  const LabelKeys: set<LabelKey> :=
    {Energy, Azimuth, Zenith, DirX, DirY, DirZ, IsTrack, IsCascade, IsNC, IsCC, TrackLength}
  const RecoKeys: set<RecoKey> := {RecoEnergy, RecoZenith, RecoAzimuth}

  /** The dictionary key, and dataset name, of each label. */
  function LabelName(k: LabelKey): string {
    match k
    case Energy => "energy"
    case Azimuth => "azimuth"
    case Zenith => "zenith"
    case DirX => "dir_x"
    case DirY => "dir_y"
    case DirZ => "dir_z"
    case IsTrack => "isTrack"
    case IsCascade => "isCascade"
    case IsNC => "isNC"
    case IsCC => "isCC"
    case TrackLength => "track_length"
  }

  /** The dictionary key, and dataset name, of each reco entry. */
  function RecoName(k: RecoKey): string {
    match k
    case RecoEnergy => "energy"
    case RecoZenith => "zenith"
    case RecoAzimuth => "azimuth"
  }

  /** The eleven label keys are distinct strings, so no label overwrites another in the dictionary. */
  lemma LabelNamesDistinct(a: LabelKey, b: LabelKey)
    requires LabelName(a) == LabelName(b)
    ensures a == b
  {
    assert |LabelName(a)| == |LabelName(b)|;
    assert LabelName(a)[0] == LabelName(b)[0];
    assert LabelName(a)[|LabelName(a)| - 1] == LabelName(b)[|LabelName(b)| - 1];
  }

  /** The three reco keys are distinct strings. */
  lemma RecoNamesDistinct(a: RecoKey, b: RecoKey)
    requires RecoName(a) == RecoName(b)
    ensures a == b
  {
    assert RecoName(a)[0] == RecoName(b)[0];
  }

  /** The float64 value a boolean label becomes. */
  function Flag(b: bool): real {
    if b then 1.0 else 0.0
  }

  /** One event's entry under a label key. */
  function LabelValue(l: Label, k: LabelKey): real {
    match k
    case Energy => l.energy
    case Azimuth => l.azimuth
    case Zenith => l.zenith
    case DirX => l.dirX
    case DirY => l.dirY
    case DirZ => l.dirZ
    case IsTrack => Flag(l.isTrack)
    case IsCascade => Flag(l.isCascade)
    case IsNC => Flag(l.isNC)
    case IsCC => Flag(l.isCC)
    case TrackLength => l.trackLength
  }

  /** One event's entry under a reco key. */
  function RecoValue(r: Reco, k: RecoKey): real {
    match k
    case RecoEnergy => r.energy
    case RecoZenith => r.zenith
    case RecoAzimuth => r.azimuth
  }

  function Weights(recs: seq<Record>): (w: seq<real>)
    ensures |w| == |recs|
  {
    seq(|recs|, i requires 0 <= i < |recs| => recs[i].weight)
  }

  /** The `labels` dictionary for a list of stored records: one column per key, one entry per record. */
  function LabelColumns(recs: seq<Record>): (m: map<LabelKey, seq<real>>)
    ensures m.Keys == LabelKeys
    ensures forall k :: k in m ==> |m[k]| == |recs|
  {
    map k | k in LabelKeys :: LabelColumn(recs, k)
  }

  function LabelColumn(recs: seq<Record>, k: LabelKey): (c: seq<real>)
    ensures |c| == |recs|
  {
    seq(|recs|, i requires 0 <= i < |recs| => LabelValue(recs[i].labels, k))
  }

  /** The `reco` dictionary for a list of stored records. */
  function RecoColumns(recs: seq<Record>): (m: map<RecoKey, seq<real>>)
    ensures m.Keys == RecoKeys
    ensures forall k :: k in m ==> |m[k]| == |recs|
  {
    map k | k in RecoKeys :: RecoColumn(recs, k)
  }

  function RecoColumn(recs: seq<Record>, k: RecoKey): (c: seq<real>)
    ensures |c| == |recs|
  {
    seq(|recs|, i requires 0 <= i < |recs| => RecoValue(recs[i].reco, k))
  }

  /**
   * Column by column, every stored event has exactly one of isTrack and
   * isCascade set to 1.0, exactly one of isCC and isNC, and a track length
   * of 0 when it is not a track.
   */
  lemma ColumnsExclusive(frames: seq<Frame>, pulseType: string)
    ensures var recs := Kept(frames, pulseType);
      var cols := LabelColumns(recs);
      forall i :: 0 <= i < |recs| ==>
        && cols[IsTrack][i] + cols[IsCascade][i] == 1.0
        && cols[IsCC][i] + cols[IsNC][i] == 1.0
        && (cols[IsTrack][i] == 0.0 ==> cols[TrackLength][i] == 0.0)
  {
    var recs := Kept(frames, pulseType);
    KeptWellFormed(frames, pulseType);
    forall i | 0 <= i < |recs|
      ensures WellFormedLabel(recs[i].labels)
    {
      assert recs[i] in recs;
    }
  }

  /** When no frame has a reconstruction, every stored reco energy is 0, so the energies sum to 0. */
  lemma {:induction false} NoRecoZeroEnergy(frames: seq<Frame>, pulseType: string)
    requires forall j :: 0 <= j < |frames| ==> frames[j].reco.None?
    ensures Sum(RecoColumns(Kept(frames, pulseType))[RecoEnergy]) == 0.0
  {
    if frames != [] {
      var init := frames[..|frames| - 1];
      NoRecoZeroEnergy(init, pulseType);
      var a, b := RecoColumns(Kept(init, pulseType))[RecoEnergy], RecoColumns(Kept(frames, pulseType))[RecoEnergy];
      var last := Select(frames[|frames| - 1], pulseType);
      if last.Some? {
        assert b[..|b| - 1] == a;
      } else {
        assert b == a;
      }
    }
  }

  lemma LabelColumnAppend(recs: seq<Record>, rec: Record, k: LabelKey)
    ensures LabelColumn(recs + [rec], k) == LabelColumn(recs, k) + [LabelValue(rec.labels, k)]
  {
  }

  lemma RecoColumnAppend(recs: seq<Record>, rec: Record, k: RecoKey)
    ensures RecoColumn(recs + [rec], k) == RecoColumn(recs, k) + [RecoValue(rec.reco, k)]
  {
  }

  /** Every label column extended by the event's entry under its key, as `append` does key by key. */
  function AppendLabels(cols: map<LabelKey, seq<real>>, l: Label): map<LabelKey, seq<real>> {
    map k | k in cols :: cols[k] + [LabelValue(l, k)]
  }

  /** Every reco column extended by the event's entry under its key. */
  function AppendReco(cols: map<RecoKey, seq<real>>, r: Reco): map<RecoKey, seq<real>> {
    map k | k in cols :: cols[k] + [RecoValue(r, k)]
  }

  lemma LabelColumnsAppend(recs: seq<Record>, rec: Record)
    ensures LabelColumns(recs + [rec]) == AppendLabels(LabelColumns(recs), rec.labels)
  {
    forall k | k in LabelKeys {
      LabelColumnAppend(recs, rec, k);
    }
  }

  lemma RecoColumnsAppend(recs: seq<Record>, rec: Record)
    ensures RecoColumns(recs + [rec]) == AppendReco(RecoColumns(recs), rec.reco)
  {
    forall k | k in RecoKeys {
      RecoColumnAppend(recs, rec, k);
    }
  }

  /** The stored records after one more frame: its record appended when the rules keep it. */
  lemma KeptSnoc(frames: seq<Frame>, f: Frame, pulseType: string)
    ensures Select(f, pulseType).None? ==> Kept(frames + [f], pulseType) == Kept(frames, pulseType)
    ensures Select(f, pulseType).Some? ==>
              Kept(frames + [f], pulseType) == Kept(frames, pulseType) + [Select(f, pulseType).value]
  {
    assert (frames + [f])[..|frames|] == frames;
    assert Kept(frames, pulseType) + [] == Kept(frames, pulseType);
  }

  /** Each record's pulses processed into the three arrays at its position. */
  ghost predicate FeaturesOf(recs: seq<Record>, dom: seq<seq<int>>, time: seq<seq<real>>, charge: seq<seq<real>>) {
    && |dom| == |time| == |charge| == |recs|
    && (recs != [] ==>
         && FeaturesOf(recs[..|recs| - 1], dom[..|recs| - 1], time[..|recs| - 1], charge[..|recs| - 1])
         && IsEventFeatures(recs[|recs| - 1].pulses, dom[|recs| - 1], time[|recs| - 1], charge[|recs| - 1]))
  }

  lemma FeaturesOfAppend(recs: seq<Record>, dom: seq<seq<int>>, time: seq<seq<real>>, charge: seq<seq<real>>,
                         rec: Record, d: seq<int>, t: seq<real>, c: seq<real>)
    requires FeaturesOf(recs, dom, time, charge) && IsEventFeatures(rec.pulses, d, t, c)
    ensures FeaturesOf(recs + [rec], dom + [d], time + [t], charge + [c])
  {
    assert (recs + [rec])[..|recs|] == recs;
    assert (dom + [d])[..|recs|] == dom;
    assert (time + [t])[..|recs|] == time;
    assert (charge + [c])[..|recs|] == charge;
  }

  /** Every stored event's arrays are its pulses processed as `EventFeatures` promises. */
  lemma {:induction false} FeaturesOfAt(recs: seq<Record>, dom: seq<seq<int>>, time: seq<seq<real>>, charge: seq<seq<real>>, i: int)
    requires FeaturesOf(recs, dom, time, charge) && 0 <= i < |recs|
    ensures IsEventFeatures(recs[i].pulses, dom[i], time[i], charge[i])
  {
    var n := |recs| - 1;
    if i < n {
      FeaturesOfAt(recs[..n], dom[..n], time[..n], charge[..n], i);
    }
  }

  /**
   * The accumulator contents that a list of stored records determines:
   * the weights and every label and reco column are functions of the
   * records, and each record's pulses are processed into the arrays at its
   * position.
   */
  ghost predicate Accumulated(kept: seq<Record>, weights: seq<real>,
                              labels: map<LabelKey, seq<real>>, reco: map<RecoKey, seq<real>>,
                              dom: seq<seq<int>>, time: seq<seq<real>>, charge: seq<seq<real>>) {
    && weights == Weights(kept)
    && labels == LabelColumns(kept)
    && reco == RecoColumns(kept)
    && FeaturesOf(kept, dom, time, charge)
  }

  lemma AccumulatedAppend(kept: seq<Record>, weights: seq<real>,
                          labels: map<LabelKey, seq<real>>, reco: map<RecoKey, seq<real>>,
                          dom: seq<seq<int>>, time: seq<seq<real>>, charge: seq<seq<real>>,
                          rec: Record, d: seq<int>, t: seq<real>, c: seq<real>)
    requires Accumulated(kept, weights, labels, reco, dom, time, charge)
    requires IsEventFeatures(rec.pulses, d, t, c)
    ensures Accumulated(kept + [rec], weights + [rec.weight], AppendLabels(labels, rec.labels),
                        AppendReco(reco, rec.reco), dom + [d], time + [t], charge + [c])
  {
    LabelColumnsAppend(kept, rec);
    RecoColumnsAppend(kept, rec);
    FeaturesOfAppend(kept, dom, time, charge, rec, d, t, c);
    assert Weights(kept + [rec]) == Weights(kept) + [rec.weight];
  }

  /**
   * Every accumulator has one entry per stored event: the weights, every
   * label and reco column, and the three feature lists; and each event's
   * three pulse arrays have one length.
   */
  lemma Lockstep(kept: seq<Record>, weights: seq<real>,
                 labels: map<LabelKey, seq<real>>, reco: map<RecoKey, seq<real>>,
                 dom: seq<seq<int>>, time: seq<seq<real>>, charge: seq<seq<real>>)
    requires Accumulated(kept, weights, labels, reco, dom, time, charge)
    ensures labels.Keys == LabelKeys && reco.Keys == RecoKeys
    ensures forall k :: k in labels ==> |labels[k]| == |weights|
    ensures forall k :: k in reco ==> |reco[k]| == |weights|
    ensures |dom| == |time| == |charge| == |weights| == |kept|
    ensures forall i :: 0 <= i < |weights| ==> |dom[i]| == |time[i]| == |charge[i]|
  {
    forall i | 0 <= i < |weights| ensures |dom[i]| == |time[i]| == |charge[i]| {
      FeaturesOfAt(kept, dom, time, charge, i);
    }
  }

  lemma SnocAssoc<T>(a: seq<T>, b: seq<T>, x: T)
    ensures (a + b) + [x] == a + (b + [x])
  {
  }

  /**
   * `read_files`: the accumulators start empty, and the loops over files
   * and frames extend them by each frame the rules keep, with its record
   * and its processed pulses. The result is what the stored frames
   * determine.
   */
  method ReadFiles(files: seq<seq<Frame>>, pulseType: string)
      returns (domIndex: seq<seq<int>>, pulseTime: seq<seq<real>>, pulseCharge: seq<seq<real>>,
               labels: map<LabelKey, seq<real>>, reco: map<RecoKey, seq<real>>, weights: seq<real>)
    ensures Accumulated(Kept(AllFrames(files), pulseType), weights, labels, reco, domIndex, pulseTime, pulseCharge)
  {
    weights := [];
    labels := map k | k in LabelKeys :: [];
    reco := map k | k in RecoKeys :: [];
    domIndex, pulseTime, pulseCharge := [], [], [];
    ghost var kept: seq<Record> := [];
    var f := 0;
    while f < |files|
      invariant 0 <= f <= |files|
      invariant kept == Kept(AllFrames(files[..f]), pulseType)
      invariant Accumulated(kept, weights, labels, reco, domIndex, pulseTime, pulseCharge)
    {
      var frames := files[f];
      ghost var before := kept;
      ghost var fileKept: seq<Record> := [];
      var i := 0;
      assert frames[..0] == [];
      while i < |frames|
        invariant 0 <= i <= |frames|
        invariant fileKept == Kept(frames[..i], pulseType)
        invariant kept == before + fileKept
        invariant Accumulated(kept, weights, labels, reco, domIndex, pulseTime, pulseCharge)
      {
        assert frames[..i + 1] == frames[..i] + [frames[i]];
        KeptSnoc(frames[..i], frames[i], pulseType);
        var sel := Select(frames[i], pulseType);
        if sel.Some? {
          var rec := sel.value;
          var dom, time, charge := EventFeatures(rec.pulses);
          AccumulatedAppend(kept, weights, labels, reco, domIndex, pulseTime, pulseCharge, rec, dom, time, charge);
          weights := weights + [rec.weight];
          labels := AppendLabels(labels, rec.labels);
          reco := AppendReco(reco, rec.reco);
          domIndex, pulseTime, pulseCharge := domIndex + [dom], pulseTime + [time], pulseCharge + [charge];
          SnocAssoc(before, fileKept, rec);
          kept, fileKept := kept + [rec], fileKept + [rec];
        }
        i := i + 1;
      }
      assert frames[..i] == frames;
      assert files[..f + 1][..f] == files[..f];
      KeptAppend(AllFrames(files[..f]), frames, pulseType);
      f := f + 1;
    }
    assert files[..f] == files;
  }
}
