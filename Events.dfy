/**
 * The per-frame rules of `read_files`: which physics frames become stored
 * events, and the labels, reconstruction and pulses each stored event
 * carries. A frame is reduced to the few objects the converter looks at.
 */
module Events {
  import opened Pulses

  datatype Option<T> = None | Some(value: T)

  /** The particle types the classification distinguishes; every other type keeps its code. */
  datatype ParticleType = NuE | NuEBar | NuMu | NuMuBar | NuTau | NuTauBar | OtherParticle(code: int)

  /** The primary neutrino, the first particle of the frame's MC tree. */
  datatype Neutrino = Neutrino(
    ptype: ParticleType,
    energy: real,
    zenith: real,
    azimuth: real,
    x: real,
    y: real,
    z: real,
    length: real)

  /** A reconstruction: energy and direction. */
  datatype Reco = Reco(energy: real, zenith: real, azimuth: real)

  /**
   * A physics frame as the converter sees it: the sub-event stream of its
   * header, the pulse-series maps stored under their frame keys, the
   * primary neutrino, the weight dictionary's interaction type, the event
   * weight, and the MultiNest reconstruction when the frame has one.
   */
  datatype Frame = Frame(
    subEventStream: string,
    pulseMaps: map<string, PulseMap>,
    nu: Neutrino,
    interactionType: real,
    weight: real,
    reco: Option<Reco>)

  const InIceSplit: string := "InIceSplit"
  const Uncleaned: string := "uncleaned"
  const Cleaned: string := "cleaned"
  const UncleanedPulses: string := "SplitInIcePulses"
  const CleanedPulses: string := "SplitInIcePulsesSRT"

  /** Interaction-type codes of the weight dictionary. */
  const CC: real := 1.0
  const NC: real := 2.0

  /**
   * The frame key a pulse type reads. Any other pulse type raises an error
   * that the surrounding catch-all handler turns into "no pulse map".
   */
  function PulseSeriesKey(pulseType: string): Option<string> {
    if pulseType == Uncleaned then Some(UncleanedPulses)
    else if pulseType == Cleaned then Some(CleanedPulses)
    else None
  }

  /** The pulse map of a frame, or None when it cannot be retrieved. */
  function PulseSeries(f: Frame, pulseType: string): Option<PulseMap> {
    match PulseSeriesKey(pulseType)
    case None => None
    case Some(k) => if k in f.pulseMaps then Some(f.pulseMaps[k]) else None
  }

  predicate IsMuonNeutrino(t: ParticleType) {
    t == NuMu || t == NuMuBar
  }

  /**
   * The labels stored per event. The `dir_x`, `dir_y` and `dir_z` labels
   * hold the neutrino's position, not its direction.
   */
  datatype Label = Label(
    energy: real,
    azimuth: real,
    zenith: real,
    dirX: real,
    dirY: real,
    dirZ: real,
    isTrack: bool,
    isCascade: bool,
    isNC: bool,
    isCC: bool,
    trackLength: real)

  /** What one stored event contributes before its pulses are processed. */
  datatype Record = Record(weight: real, labels: Label, reco: Reco, pulses: PulseMap)

  function MakeLabel(nu: Neutrino, isTrack: bool, isNC: bool, isCC: bool, trackLength: real): Label {
    Label(nu.energy, nu.azimuth, nu.zenith, nu.x, nu.y, nu.z, isTrack, !isTrack, isNC, isCC, trackLength)
  }

  /** A frame without reconstruction stores zeros. */
  function RecoOrZeros(r: Option<Reco>): Reco {
    if r.Some? then r.value else Reco(0.0, 0.0, 0.0)
  }

  /**
   * One frame through the rules of `read_files`, in their order: wrong
   * stream, no pulse map, and neither CC nor NC (unless a muon-neutrino CC
   * track) give None; a kept frame gives its record.
   */
  function Select(f: Frame, pulseType: string): Option<Record> {
    if f.subEventStream != InIceSplit then None
    else match PulseSeries(f, pulseType)
      case None => None
      case Some(pmap) =>
        var isCC := f.interactionType == CC;
        var isNC := f.interactionType == NC;
        var isOther := !isCC && !isNC;
        if IsMuonNeutrino(f.nu.ptype) && isCC then
          Some(Record(f.weight, MakeLabel(f.nu, true, isNC, isCC, f.nu.length), RecoOrZeros(f.reco), pmap))
        else if isOther then None
        else Some(Record(f.weight, MakeLabel(f.nu, false, isNC, isCC, 0.0), RecoOrZeros(f.reco), pmap))
  }

  /** The pulse map a known pulse type reads. */
  function PulseMapKey(pulseType: string): string {
    if pulseType == Uncleaned then UncleanedPulses else CleanedPulses
  }

  /**
   * A frame is stored exactly when it is in the InIceSplit stream, the
   * requested pulse type is "uncleaned" or "cleaned" and its map is in the
   * frame, and the interaction is CC or NC. So an unknown pulse type
   * stores no frame at all, rather than stopping the program.
   */
  lemma SelectKeptIff(f: Frame, pulseType: string)
    ensures Select(f, pulseType).Some? <==>
      && f.subEventStream == InIceSplit
      && (pulseType == Uncleaned || pulseType == Cleaned)
      && PulseMapKey(pulseType) in f.pulseMaps
      && (f.interactionType == CC || f.interactionType == NC)
  {
  }

  /** The consistency every stored label has. */
  predicate WellFormedLabel(l: Label) {
    && l.isTrack != l.isCascade
    && l.isCC != l.isNC
    && (l.isTrack ==> l.isCC)
    && (!l.isTrack ==> l.trackLength == 0.0)
  }

  /**
   * What a stored frame's record holds: exactly one of track and cascade;
   * track iff a (anti-)muon neutrino in a CC interaction, with the
   * neutrino's length, else length 0; exactly one of CC and NC, read from
   * the interaction type; the neutrino's energy, angles and position; the
   * reconstruction or zeros; and the requested pulse map.
   */
  lemma SelectRecord(f: Frame, pulseType: string)
    requires Select(f, pulseType).Some?
    ensures var r := Select(f, pulseType).value;
      && WellFormedLabel(r.labels)
      && (r.labels.isCC <==> f.interactionType == CC)
      && (r.labels.isNC <==> f.interactionType == NC)
      && (r.labels.isTrack <==> IsMuonNeutrino(f.nu.ptype) && f.interactionType == CC)
      && r.labels.trackLength == (if r.labels.isTrack then f.nu.length else 0.0)
      && r.labels.energy == f.nu.energy && r.labels.azimuth == f.nu.azimuth && r.labels.zenith == f.nu.zenith
      && r.labels.dirX == f.nu.x && r.labels.dirY == f.nu.y && r.labels.dirZ == f.nu.z
      && r.reco == (if f.reco.Some? then f.reco.value else Reco(0.0, 0.0, 0.0))
      && r.weight == f.weight
      && r.pulses == f.pulseMaps[PulseMapKey(pulseType)]
  {
  }
}
