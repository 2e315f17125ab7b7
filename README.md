# i3_to_hdf5 in Dafny

A model of the IceCube converter `i3_to_hdf5.py`. The converter reads
simulated `.i3` event files, keeps the physics frames of the
`InIceSplit` sub-event stream that have a pulse series and a CC or NC
interaction, and writes the kept events of each input file to one HDF5
file. Each stored event has a weight, truth labels, a MultiNest
reconstruction (zeros when absent) and three per-event pulse arrays:
DOM index, time and charge. The arrays are jointly sorted by time and
the times are centred on their mean.

The model has five modules, one per file:

- `PathNames` covers Python's `os.path` rules (`split`, `basename`,
  `splitext`, `join`), the `strip_i3_ext` loop and the output path
  `/mnt/scratch/priesbr1/Processed_Files/<stem>.hdf5`.
- `Pulses` covers the DOM index `(string-1)*60+(om-1)`, the flattening of
  a pulse-series map into three parallel arrays, `argsort` and the joint
  sort, and mean centering.
- `Events` reduces a physics frame to the objects the converter reads.
  It gives the per-frame filter and classification rules in source order
  (stream, pulse map, CC/NC, track/cascade) and the record a kept frame
  contributes.
- `Reader` covers `read_files`. The accumulators (`weights`, the `labels`
  and `reco` dictionaries, the three `features` lists) are grown by nested
  loops over files and frames. They are specified by the records the
  filter keeps (`Kept`) through the predicate `Accumulated`.
- `Driver` covers the top level: the choice between the list branch and
  the single-file branch, and the skip / write / overwrite / no-output
  decision per input. It also decides whether `reco` is dropped. The run
  over a list threads the set of existing outputs, because an output
  written for one input exists for the inputs after it.

Times, charges, energies and angles are exact reals, so mean centering is
modelled exactly. The file system is reduced to two inputs: the set of
existing output paths and a function giving each input file's frames.
`glob` is a function parameter standing for the sorted expansion of a
pattern. The event weight is a field of the frame.

An unknown pulse type is sometimes described as a fatal error. In the
code the `RuntimeError` is raised inside the `try` whose bare `except`
turns it into "no pulse map" (i3_to_hdf5.py:100-111). Every event is
therefore skipped, and every input that is read ends with "No output to
write"; an input whose output is skipped as existing is not read. The model follows the code (`Reader.UnknownPulseTypeKeepsNothing`).

## Model

| member | source | states |
|---|---|---|
| PathNames.BasenameSuffix | i3_to_hdf5.py:252 | `os.path.basename` gives the longest separator-free suffix of the path, preceded by a separator when it is not the whole path |
| PathNames.SplitParts | i3_to_hdf5.py:249 | `os.path.split` gives the base name as tail; the head is a prefix of the path with only separators between it and the tail; the head keeps no trailing separator unless everything before the tail is separators, in which case the head is all of that |
| PathNames.Join | i3_to_hdf5.py:255 | `os.path.join(a, b)`: an absolute `b` replaces `a`; otherwise `a`, then one separator exactly when `a` is non-empty and does not end in one, then `b` |
| PathNames.SplitExtParts | i3_to_hdf5.py:252 | `os.path.splitext`: root followed by extension is the path; an extension is taken only when a non-dot precedes it in the base name, and it runs from the last dot (no other dot, no separator); none is taken exactly when the base name has no dot or only dots before its last one |
| PathNames.RoundAt | i3_to_hdf5.py:252 | one round of `splitext(basename(name))` on a separator-free name splits at the last dot whenever a non-dot precedes it, also for a leading-dot name such as `.a.b` |
| PathNames.RoundNone | i3_to_hdf5.py:252 | a separator-free name with no dot after its first character has no extension |
| PathNames.StripWithStopsAtI3 | i3_to_hdf5.py:251-258 | for any round that splits off extensions, the loop removes no `.i3` except possibly the last extension removed; if that one is not `.i3`, no extension is left |
| PathNames.StripNameRemoves | i3_to_hdf5.py:248-258 | the base name is the stripped name followed by the removed extensions, all genuine; each removed extension is exactly what one round of `splitext` splits off the name built so far; only the last one removed can be `.i3`; otherwise stripping ended because no extension was left |
| PathNames.StripI3Ext | i3_to_hdf5.py:248-258 | the loop returns the stripped base name, rejoined under the original directory when `keep_path` holds |
| PathNames.StripCompressedI3 | i3_to_hdf5.py:251-258 | `x.i3.bz2` (any non-`.i3` extension after `.i3`) gives `x`, for any stem not starting with a dot, dots in the stem included |
| PathNames.StripLevel5Name | i3_to_hdf5.py:248-258 | `Level5p_IC86.2013_genie_numu.014640.000001.i3.bz2`, a name of the pattern on line 16, gives `Level5p_IC86.2013_genie_numu.014640.000001` |
| PathNames.StripOtherExt | i3_to_hdf5.py:251-258 | `x.zst` (any single non-`.i3` extension) gives `x` |
| PathNames.StripDoubleI3 | i3_to_hdf5.py:251-258 | only one `.i3` is removed: `x.i3.i3` gives `x.i3`, for any stem not starting with a dot |
| PathNames.StripHiddenName | i3_to_hdf5.py:252-257 | a leading dot does not start an extension: `.name` stays `.name` |
| PathNames.StripHiddenNameExt | i3_to_hdf5.py:251-258 | a later dot in a leading-dot name does: `.a.b` gives `.a`, and stripping stops there |
| PathNames.StripTwoRounds | i3_to_hdf5.py:251-258 | a non-`.i3` extension is removed, then `.i3` is removed and the loop stops |
| PathNames.StripRoundThenNone | i3_to_hdf5.py:251-258 | a non-`.i3` extension is removed, then no extension is left and the loop stops |
| PathNames.OutputPathShape | i3_to_hdf5.py:269 | the output lies directly in the fixed output directory, ends with `.hdf5`, and its stem is a separator-free prefix of the input's base name |
| PathNames.OutputPathSameBasename | i3_to_hdf5.py:269 | inputs with the same base name in different directories share one output path |
| Pulses.DomIndexRoundTrip | i3_to_hdf5.py:185 | a key with string in 1..86 and om in 1..60 maps into 0..5159, and `DomKey` gives it back |
| Pulses.DomKeyRoundTrip | i3_to_hdf5.py:185 | every index in 0..5159 is the index of exactly one valid key |
| Pulses.DomIndexInjective | i3_to_hdf5.py:177-185 | distinct valid keys get distinct indices |
| Pulses.OutOfRangeOmAliases | i3_to_hdf5.py:180-185 | since an out-of-range om is only printed, om 61 of a string collides with om 1 of the next string, and om 0 of string 1 gets index -1 |
| Pulses.FlatLength | i3_to_hdf5.py:173-190 | the number of emitted pulses is the number of pulses on strings 1..86 |
| Pulses.FlatSound | i3_to_hdf5.py:173-190 | every emitted triple comes from a pulse of a key on strings 1..86 |
| Pulses.FlatComplete | i3_to_hdf5.py:177-190 | every pulse of a key on strings 1..86 is emitted, whatever its om |
| Pulses.FlatDomInRange | i3_to_hdf5.py:177-185 | when every kept key has om in 1..60, every emitted index is in 0..5159 |
| Pulses.FlattenPulses | i3_to_hdf5.py:169-190 | the loop over the map yields three arrays of one length whose triples are exactly `Flat` of the map |
| Pulses.ArgSort | i3_to_hdf5.py:197 | `np.argsort` gives a permutation of the indices under which the times are non-decreasing |
| Pulses.GatherPermutes | i3_to_hdf5.py:198-200 | indexing with a permutation keeps the multiset of elements |
| Pulses.SortByTime | i3_to_hdf5.py:196-200 | after the joint sort the times are non-decreasing and the (index, time, charge) triples are a permutation of those before |
| Pulses.CenterProperties | i3_to_hdf5.py:205-206 | centred times sum to 0, keep their order and length, and shifting back by the mean restores them |
| Pulses.EventFeatures | i3_to_hdf5.py:169-207 | one event's arrays have one length (the pulses on strings 1..86), sorted and centred times, and, shifted back, exactly the map's triples |
| Events.SelectKeptIff | i3_to_hdf5.py:94-145 | a frame is kept iff its stream is `InIceSplit`, the pulse type is `uncleaned` or `cleaned` with its map present, and the interaction type is 1.0 or 2.0 |
| Events.SelectRecord | i3_to_hdf5.py:113-167 | a kept record has exactly one of isTrack/isCascade and of isCC/isNC; a track iff NuMu/NuMuBar CC, with `nu.length`, else length 0; the neutrino's energy, angles and position; the reco or zeros; the weight; the requested map |
| Reader.KeptAppend | i3_to_hdf5.py:85-88 | the records of files read one after another are the records of each file, in order |
| Reader.KeptSound | i3_to_hdf5.py:88-145 | every stored record is the record of one of the frames |
| Reader.KeptComplete | i3_to_hdf5.py:88-145 | every frame the rules keep is stored |
| Reader.KeptSnoc | i3_to_hdf5.py:88-152 | one more frame adds its record when kept and nothing otherwise |
| Reader.KeptWellFormed | i3_to_hdf5.py:131-145 | every stored label has exactly one of track/cascade and of CC/NC, a track only when CC, and length 0 unless a track |
| Reader.UnknownPulseTypeKeepsNothing | i3_to_hdf5.py:99-111 | a pulse type other than `uncleaned` and `cleaned` stores no event |
| Reader.LabelNamesDistinct | i3_to_hdf5.py:67-78 | the eleven label keys are distinct strings, so each label has its own list |
| Reader.RecoNamesDistinct | i3_to_hdf5.py:80-83 | the three reco keys are distinct strings |
| Reader.LabelColumns | i3_to_hdf5.py:67-78 | the `labels` dictionary has exactly the eleven keys, each with one entry per stored event |
| Reader.RecoColumns | i3_to_hdf5.py:80-83 | the `reco` dictionary has exactly its three keys, each with one entry per stored event |
| Reader.LabelColumnsAppend | i3_to_hdf5.py:152-163 | a stored event extends every label column by its own entry under that key |
| Reader.RecoColumnsAppend | i3_to_hdf5.py:165-167 | a stored event extends every reco column by its reco value, or zero |
| Reader.ColumnsExclusive | i3_to_hdf5.py:159-163 | as float64 columns, isTrack + isCascade = 1, isCC + isNC = 1, and track_length is 0 where isTrack is 0 |
| Reader.NoRecoZeroEnergy | i3_to_hdf5.py:121-129 | when no frame has a reconstruction, the stored reco energies sum to 0 |
| Reader.AccumulatedAppend | i3_to_hdf5.py:152-211 | appending one stored event's entries to every accumulator keeps them equal to what the stored records determine |
| Reader.FeaturesOfAt | i3_to_hdf5.py:209-211 | the i-th entries of the feature lists are the i-th stored event's processed pulses |
| Reader.Lockstep | i3_to_hdf5.py:152-211 | weights, every label and reco column and the three feature lists have one entry per stored event, and each event's three arrays have one length |
| Reader.ReadFiles | i3_to_hdf5.py:49-221 | the loops over files and frames leave exactly the accumulators that the kept records of all frames, in order, determine |
| Driver.ListStepCases | i3_to_hdf5.py:268-288 | in the list branch an output is skipped iff it exists and overwrite is off; written iff absent and an event was stored; overwritten iff present, overwrite on and an event was stored; else nothing is produced; `reco` is kept iff its energies do not sum to 0 |
| Driver.SingleStepIgnoresOverwrite | i3_to_hdf5.py:290-311 | the single-file branch skips iff the output exists, never overwrites, and decides as the list branch with overwrite off |
| Driver.NoRecoWrittenWithoutReco | i3_to_hdf5.py:278-279 | an input with no reconstruction in any frame is written without the `reco` group |
| Driver.ListRunSteps | i3_to_hdf5.py:267-269 | the list run makes one step per input, in order, each for the output its input names |
| Driver.ListRunFinal | i3_to_hdf5.py:267-288 | the outputs after the run are the outputs before it plus those of the written steps |
| Driver.NoRewriteWithoutOverwrite | i3_to_hdf5.py:267-288 | with overwrite off, an output that existed is skipped, and once written for one input, later inputs naming it are skipped |
| Driver.ListRunCovers | i3_to_hdf5.py:267-288 | after a list run every input's output exists, unless no event of it was stored |
| Driver.CoveredRunWritesNothing | i3_to_hdf5.py:267-288 | over outputs that already cover the inputs, a run with overwrite off writes nothing |
| Driver.ListRunIdempotent | i3_to_hdf5.py:267-288 | running the list branch again with overwrite off writes nothing and leaves the outputs as they are |
| Driver.RunBranches | i3_to_hdf5.py:260-311 | only a given argument without `*` and `?` takes the single-file branch, which makes one step and never overwrites; a pattern or no argument (the default pattern) takes the list branch over the matches |
| Driver.ReadOneFile | i3_to_hdf5.py:276-278 | `read_files([input_file])` stores as many weights as the file has kept records, and the reco energy sum is non-zero iff `reco` is kept |
| Driver.HandleInput | i3_to_hdf5.py:268-288 | one pass of the list loop, reading the input only when not skipped, gives exactly the list-branch decision for the output path `OutputPath` names |
| Driver.RunList | i3_to_hdf5.py:267-288 | the list loop gives exactly the steps and the final set of outputs of the list run |

## Left out

- Reading `.i3` files (`dataio.I3File`, `pop_physics`, frame lookups) is replaced by a function from input path to its sequence of frames. A frame that cannot be popped and a missing or unreadable input file are not modelled.
- HDF5 writing (`write_hdf5_file`) is not modelled. A written step records only its output path and whether `reco` is included. The function writes to the global `output_file` rather than to its `filename` argument; the two are always equal at its call sites.
- Argument parsing is not modelled; the pattern argument, `overwrite` and the pulse type are inputs. Lower-casing of the pulse type is left out, so the pulse type is taken as already lower-cased.
- `glob.glob` and `sorted` are a function parameter. The unknown-type branch at the end of the driver cannot be reached with a string argument and is left out.
- A default input list containing an element that is literally `*` or `?` would be globbed again and fail. This is left out.
- `os.path.isfile` is replaced by the set of existing output paths.
- Console printing is left out, including the report of an out-of-range om.
- The weight `OneWeight * E^-2 / NEvents` is not modelled: its floating-point arithmetic and a possible division by zero are left out. The weight is an abstract field of the frame.
- Unit divisions by `I3Units.GeV` and `I3Units.rad` are identities in IceCube and are left out.
- Pulses.FlattenPulses: DOM indices are unbounded integers. The `uint16` cast, which wraps the index -1 of om 0 on string 1 to 65535, is not modelled.
- Pulses.EventFeatures: times and charges are exact reals. The float32 rounding of times and charges and floating-point mean centering are not modelled.
- Pulses.ArgSort: any permutation that sorts the times is accepted. NumPy's particular order among equal times is unspecified and not modelled.
- `load_geometry`, `track_get_pos` and `track_get_time` are never called by the converter and are not part of this model.
- The Driver decision lemmas are stated for any output-naming function; `Run`, `HandleInput` and `RunList` use `PathNames.OutputPath`.
