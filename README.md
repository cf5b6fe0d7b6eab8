# Dojo learning environment, modelled in Dafny

This project models the core of the Dojo learning environment. The
environment trains a tabular Q-learning agent to play a fighting game on a
PlayStation emulator. It has six parts:

- **QLearning** (`qlearning.dfy`): the agent. It keeps a table of states,
  each a frame abstraction with 256 Q values, one per action. A visit looks
  for an equivalent stored state or stores a new one, and chooses the action
  with the largest Q value. It then applies the temporal-difference update to
  the previous (state, action) pair.
- **Vision** (`vision.dfy`): the image pipeline that builds a frame
  abstraction:
  - life-bar reading;
  - colour thresholds;
  - the bounding box and centroids of a mask;
  - growing a character mask from a seed pixel;
  - the colour histograms that tell the two characters apart, and
    segmentation by probability;
  - merging and enclosing the two characters;
  - the fading trace;
  - the mean squared error between two frames.
- **CdRom** (`cdrom.dfy`): a PlayStation CD image read as raw 2354-byte
  sectors. It covers the ECC check, the system identifier strings, the
  15-bit colour palette, the TIM image decoder and the search for "TIM1"
  markers.
- **GpuViewer** (`gpu_viewer.dfy`): the recorded GPU commands. These are
  vertices with their texture-page coordinates, polygons with their display
  names, and frames that collect commands.
- **CpuTypes, Cpu, BasicReader** (`cpu_types.dfy`, `cpu.dfy`, `basic_reader.dfy`):
  - the R3000A primary opcodes and their decoding from a byte;
  - the instruction fetch, with its segment test and RAM mirroring;
  - the ROM reader, which packs a file into big-endian words and lists
    each word's opcode mnemonic.
- **Dma** (`dma.dfy`): the DMA control register.

`common.dfy` (module `Common`) holds the shared types used by all parts:
bytes and words, `Option`, `Result`, RGB pixels, images, and big-endian
conversion.

Where Rust code updates a struct in place, the model is a class with the
same fields. Each method's contract states the new value of every field it
changes. This covers `Agent`, `CPU`, `DMA` and `GpuFrame`. The agent's
fields are also given as a value, `QLearning.AgentState`, and its
`visit_state` method is proved against the transition function
`QLearning.Visit` on that value.

The image algorithms are loops that build their output pixel by pixel.
Each one is proved against a recursive specification function (or, for
`grow_region`, a set of invariants), and lemmas state what that function
means.

Notes on how the model represents the source:

- Floating-point values are exact reals.
- A panic becomes a precondition, or an error value where the source's own
  inputs decide whether it happens, as in `parse_tim_image`.
- Randomness is a parameter.

## Model

| member | source | states |
|---|---|---|
| Common.BigEndian32RoundTrip | src/basic_reader.rs:22 | Reading four bytes as a big-endian `u32` and writing the word back big-endian are inverse in both directions |
| Common.BigEndian16Bytes | src/cdrom.rs:120 | The big-endian `u16` built from two bytes has the first byte as its high byte and the second as its low byte |
| Vision.LifeClassesPartitionBar | src/vision.rs:159-174 | Each life-bar pixel is exactly one of taken (grey level up to 100), remaining life (up to 200) or damage, so the three counts add up to the bar's width |
| Vision.GetLifeInfoForPlayer | src/vision.rs:159-174 | Life counts the bar's pixels of grey level in 101..200, damage those above 200, total is the bar's width, and life plus damage never exceeds the total |
| Vision.GetLifeInfo | src/vision.rs:152-157 | Both players' counts over their fixed bars, columns 12..164 and 204..356 of row 54, each 152 pixels long |
| Vision.ApplyThresholds | src/vision.rs:358-392 | Every pixel but those of the last column keeps exactly the channels lying strictly outside their interval; the last column, which the loop skips, stays black |
| Vision.ScanColumnsHold | src/vision.rs:416-439 | The box the column-major scan produces contains every set pixel scanned |
| Vision.ScanColumnsTouch | src/vision.rs:416-439 | The scanned box is the initial `(width, height), (0, 0)` or each of its four sides passes through a set pixel |
| Vision.ScanColumnsInitial | src/vision.rs:416-439 | An all-zero mask leaves the box at its initial corners |
| Vision.FindCorners | src/vision.rs:416-439 | The corners are the tightest box around the set pixels: it holds every set pixel, each side touches one, and an empty mask gives `(width, height), (0, 0)` |
| Vision.FindCentroid | src/vision.rs:506-536 | Each centroid coordinate is the first column (row) of the half-open box with the strictly largest positive count of set pixels, or 0 when the box has none |
| Vision.FindCentroids | src/vision.rs:441-504 | The box is split at its middle column, and each half's centroid is the one `find_centroid` defines for that half |
| Vision.OffsetsAreTheNeighbours | src/vision.rs:613-673 | The eight offsets `grow_region` tries reach exactly the 8-adjacent pixels |
| Vision.MarkVisited | src/vision.rs:613-673 | Marking a pixel visited adds exactly that pixel to the visited set and keeps the matrix's shape |
| Vision.MarkVisitedShrinks | src/vision.rs:613-673 | Marking an unvisited pixel of the box removes it from the unvisited set, so the queue loop terminates |
| Vision.TryVisit | src/vision.rs:613-673 | A neighbour is queued and marked exactly when it is in the box, set in the mask and not yet visited; otherwise nothing changes |
| Vision.VisitNeighbours | src/vision.rs:613-673 | After the neighbour loop every growable neighbour is visited, and the queue grew only by growable pixels, each marked as it was queued |
| Vision.ClosedRegionHoldsPaths | src/vision.rs:613-673 | In a closed region, every growth path that starts at a marked pixel ends at a marked pixel |
| Vision.EmptyQueueClosesRegion | src/vision.rs:613-673 | Once the queue is empty, no pixel of the region has a growable neighbour outside it |
| Vision.ReachableStep | src/vision.rs:613-673 | A growable pixel 8-adjacent to a pixel reachable from the seed is itself reachable |
| Vision.ClosedRegionHoldsReachable | src/vision.rs:613-673 | A closed region that marks the seed marks every pixel reachable from it |
| Vision.RoundKeepsReach | src/vision.rs:613-673 | Popping a pixel and queueing its growable neighbours keeps every queued and every marked pixel reachable from the seed |
| Vision.WidenKeepsSides | src/vision.rs:636-650 | Marking a pixel and widening the box over it keeps a marked pixel on each side of the box |
| Vision.GrowStarts | src/vision.rs:619-631 | The blank mask, the initial box, the empty visited matrix and the queue holding only the seed satisfy the loop invariant |
| Vision.GrowRound | src/vision.rs:634-670 | One round of the queue loop keeps the loop invariant and uses up a queued or unvisited pixel |
| Vision.GrowEnds | src/vision.rs:613-673 | When the queue is empty, the marked pixels are exactly those reachable from the seed, the region is closed, and each side of the box passes through a marked pixel |
| Vision.GrowRegion | src/vision.rs:613-673 | The grown mask is binary and marks exactly the seed's 8-connected component of growable pixels. Its corners are the tight box of that component: every marked pixel lies inside, and each side passes through a marked pixel. An empty mask gives a blank character |
| Vision.Probability | src/vision.rs:675-714 | A colour's probability lies in [0, 1]; it is 0 for an unseen colour and otherwise count divided by total |
| Vision.VotesDisjoint | src/vision.rs:675-714 | No pixel votes for both histograms: the two vote counts together never exceed the character's pixels |
| Vision.NoVotesForEqualHistograms | src/vision.rs:675-714 | Comparing a histogram with itself gives no votes |
| Vision.SwapIfNeeded | src/vision.rs:675-714 | The characters are swapped exactly when character 1's pixels that are strictly more probable under histogram 2 outnumber those strictly more probable under histogram 1 |
| Vision.TallyCounts | src/vision.rs:795-812 | After the update, each colour's entry counts its pixels inside the character and its pixels in all, added to the entry it had |
| Vision.TallyWellFormed | src/vision.rs:795-812 | The update keeps every histogram entry seen at least once and counting no more character pixels than pixels |
| Vision.UpdateProbabilities | src/vision.rs:795-812 | The loop adds every pixel of the frame to the histogram, in `enumerate_pixels` order |
| Vision.SegmentByProbability | src/vision.rs:814-843 | A pixel is set exactly when it is inside the half-open box, set in the mask and more probable than the threshold |
| Vision.MergeCharsMasks | src/vision.rs:716-725 | A pixel of the merged mask is 255 exactly when it is set in either mask, 0 otherwise |
| Vision.Enclose | src/vision.rs:872-883 | The enclosing box contains both characters' boxes and is the least such box |
| Vision.Disjoint | src/vision.rs:220-223 | When the test reports the characters disjoint, no point lies in both closed boxes |
| Vision.DisjointIffNoSharedPixel | src/vision.rs:220-223 | When the boxes are disjoint, their closed boxes share no point. When two boxes that are not inverted are not disjoint, their closed boxes share a point |
| Vision.MergeSegmentedChars | src/vision.rs:845-870 | Inside the enclosing box each pixel takes the merged colour of the two segmentations, and outside it is black |
| Vision.IntensityLost | src/vision.rs:885-904 | The fade step is the truncated quotient of 255 by the amount, at least 1 (saturated when the amount is 0) |
| Vision.FadeTimesIsLinear | src/vision.rs:885-904 | Fading a channel n times lowers it by n fade steps, stopping at 0 |
| Vision.AddToTrace | src/vision.rs:885-904 | Pixels with red or blue keep the frame's colour; the others take the trace's red and blue faded by one step, with green 0. The trace needs to cover only the dark pixels, the only ones it is read at |
| Vision.SquaredDiffProperties | src/vision.rs:1014-1015 | The squared channel difference is symmetric and zero exactly for equal channels |
| Vision.ErrorSumSymmetric | src/vision.rs:994-1023 | The error sum of two frames does not depend on their order |
| Vision.PixelErrorZeroIffEqual | src/vision.rs:1012-1016 | A pixel contributes no error exactly when both frames agree on it |
| Vision.ErrorSumZeroIffEqual | src/vision.rs:994-1023 | The error sum is zero exactly when the two frames are equal pixel for pixel |
| Vision.MeanSquaredErrorOfSelf | src/vision.rs:994-1023 | A non-empty frame compared with itself has MSE 0 |
| Vision.ComputeMse | src/vision.rs:994-1023 | The loop's error sum is the sum of squared channel differences over the frame, and the MSE is that sum divided by three times the pixel count; an empty frame has no MSE (NaN) |
| Vision.LitMask | src/vision.rs:578-591 | The mask is set exactly at the pixels with a non-zero channel |
| Vision.LitColumns | src/vision.rs:578-591 | The column scan of the lit pixels gives the leftmost and rightmost lit columns, or `(width, 0)` when nothing is lit |
| Vision.GetXLimits | src/vision.rs:578-591 | The limits are the leftmost and rightmost columns holding a lit pixel: every lit pixel lies between them and both are lit; a dark frame gives `(width, 0)` |
| QLearning.NewState | src/q_learning.rs:53-59 | A new state keeps its frame abstraction and has all 256 Q values at zero |
| QLearning.ScanStatesFindsFirstMinimum | src/q_learning.rs:147-178 | The scan of `search_state` finds the first candidate within the radius of least MSE, and stays at index 0 with MSE 65025 when no candidate beats that |
| QLearning.Search | src/q_learning.rs:147-178 | A state found is an index into the table, unless the table is empty and `max_mse` exceeds 65025 |
| QLearning.SearchResult | src/q_learning.rs:147-178 | A state is found exactly when the least candidate MSE is below `max_mse`; the one found is within the radius, of least MSE and the first of that MSE |
| QLearning.ScanActionsFindsFirstMaximum | src/q_learning.rs:230-245 | The action scan finds the first action with the largest Q value above -1, and none when every Q value is at most -1 |
| QLearning.BestAction | src/q_learning.rs:230-245 | The returned max Q is at least -1; when it exceeds -1, the returned action names a Q value equal to it |
| QLearning.BestActionIsFirstMaximum | src/q_learning.rs:230-245 | The chosen action is the first with the largest Q value when some Q value exceeds -1, and otherwise the random action with max Q -1 |
| QLearning.ChooseBestAction | src/q_learning.rs:230-245 | The loop returns the best action and its Q value |
| QLearning.Visit | src/q_learning.rs:81-145 | A visit adds at most one state and never removes one; the radius, learning rate, discount factor and training time are unchanged |
| QLearning.VisitKeepsInvariant | src/q_learning.rs:63-145 | A new agent and the agent after any visit keep the table's invariants: the state count matches, 256 Q values per state, the previous step names a stored state, and one plot point per iteration |
| QLearning.VisitSameStateIsNoop | src/q_learning.rs:96-100 | A visit that finds the last stored state returns action 0 and changes nothing |
| QLearning.VisitEffect | src/q_learning.rs:81-145 | A visit revisits the found state with its best action, or stores a new state with the random action. It updates only the previous step's Q value, by the temporal difference, and appends one point to each plot |
| QLearning.NewStateIsRecognised | src/q_learning.rs:106-115 | Right after a new state is stored, visiting the same frame again finds it and is a no-op |
| QLearning.PushedStateIsFound | src/q_learning.rs:147-178 | A frame that matched no stored state matches the state pushed for it, at MSE 0 |
| QLearning.Agent.constructor | src/q_learning.rs:63-79 | A new agent has no states, radius 30, discount 0.9 and learning rate 0.5 |
| QLearning.Agent.SearchState | src/q_learning.rs:147-178 | The search loop returns the search function's result |
| QLearning.Agent.VisitState | src/q_learning.rs:81-145 | The new fields and the returned action are those of the visit transition |
| QLearning.Agent.MoveTo | src/q_learning.rs:96-115 | Revisits the found state or pushes the new one, as the transition's first stage does |
| QLearning.Agent.LearnFrom | src/q_learning.rs:117-129 | Applies the temporal-difference update to the previous (state, action) pair only |
| QLearning.Agent.RecordStep | src/q_learning.rs:131-144 | Appends the plot points, counts the iteration and records the step as the previous one |
| QLearning.Agent.GetIterationNumber | src/q_learning.rs:200-202 | Returns the iteration count |
| QLearning.Agent.GetNumberOfStates | src/q_learning.rs:204-206 | Returns the state count, which equals the table's length |
| QLearning.Agent.SetRadius | src/q_learning.rs:208-210 | Sets the radius and nothing else |
| QLearning.Agent.GetStatesPerIteration | src/q_learning.rs:212-214 | Returns the states plot, one point per iteration |
| QLearning.Agent.GetMaxQPerIteration | src/q_learning.rs:216-218 | Returns the max-Q plot, one point per iteration |
| QLearning.Agent.AddTrainingTime | src/q_learning.rs:220-222 | Adds to the training time and changes nothing else |
| QLearning.Agent.GetTrainingTime | src/q_learning.rs:224-227 | Returns the training time |
| CdRom.SplitSector | src/cdrom.rs:41-63 | A sector buffer splits into header, data and ECC of 24, 2048 and 282 bytes, which laid back together give the buffer |
| CdRom.SplitSectorBytes | src/cdrom.rs:41-63 | Splitting a sector's bytes gives the sector back |
| CdRom.SectorsOfFile | src/cdrom.rs:41-63 | A file yields one sector per full 2354 bytes, sector k being bytes [2354k, 2354(k+1)); together they are the file without its trailing partial sector |
| CdRom.FromFile | src/cdrom.rs:41-63 | The reading loop yields exactly those sectors, all well formed |
| CdRom.EccSumZeroIff | src/cdrom.rs:65-75 | A sector's ECC sum is zero exactly when all its ECC bytes are zero, and it never exceeds 255 per byte |
| CdRom.CheckEcc | src/cdrom.rs:65-75 | The check passes exactly when every sector's ECC sum is zero; otherwise the error names the first sector whose sum is not zero |
| CdRom.SumOf | src/cdrom.rs:70 | The fold adds up the ECC bytes |
| CdRom.Lossy | src/cdrom.rs:79-82 | The lossy decoding keeps each ASCII byte and replaces every other byte by U+FFFD |
| CdRom.TrimTrailingNul | src/cdrom.rs:79-82 | Trimming removes exactly the trailing NUL characters |
| CdRom.SystemInfo | src/cdrom.rs:77-83 | The string is the decoded slice of sector 16 with its trailing NULs removed |
| CdRom.Title | src/cdrom.rs:85-87 | The title is a prefix, at most 20 characters long, of the decoded 20 bytes at offset 8 of sector 16 |
| CdRom.Developer | src/cdrom.rs:89-91 | The developer is a prefix, at most 20 characters long, of the decoded 20 bytes at offset 286 of sector 16 |
| CdRom.Publisher | src/cdrom.rs:93-95 | The publisher is a prefix, at most 20 characters long, of the decoded 20 bytes at offset 414 of sector 16 |
| CdRom.Platform | src/cdrom.rs:97-99 | The platform is a prefix, at most 20 characters long, of the decoded 20 bytes at offset 542 of sector 16 |
| CdRom.Colour555Pack | src/cdrom.rs:117-127 | A decoded palette colour has channels that are multiples of 8 up to 248, and packing them back gives the low 15 bits of the word |
| CdRom.Pack555Decodes | src/cdrom.rs:117-127 | Every colour with channels that are multiples of 8 is the decoding of its 15-bit packing |
| CdRom.ParseColorPalette | src/cdrom.rs:117-127 | There is one colour per two bytes, colour k being the 15-bit colour of bytes 2k and 2k+1 read big-endian |
| CdRom.ParseTimImage | src/cdrom.rs:129-175 | The image decodes when no slice or palette lookup fails; otherwise the error is the first panic the source would hit |
| CdRom.DecodeTim | src/cdrom.rs:133-174 | A TIM image without failures decodes to its header's dimensions, each pixel taking the palette colour its byte selects |
| CdRom.LookUpPixels | src/cdrom.rs:163-170 | The lookup fails exactly when some pixel byte lies beyond the palette; otherwise it gives the palette colours of the pixel bytes, three channels each |
| CdRom.ClutPixelsDecode | src/cdrom.rs:158-170 | The looked-up channels of pixel m are those of the palette entry its byte selects |
| CdRom.MarkersBelowAscending | src/cdrom.rs:104-105 | The offsets the scan of one sector reports are below the bound and strictly ascending |
| CdRom.MarkersAscending | src/cdrom.rs:101-115 | The (sector, offset) pairs the scan reports name scanned sectors and come in sector, then offset, order, with no pair twice |
| CdRom.MarkersBelowExactly | src/cdrom.rs:104-105 | The marker scan of one sector finds exactly the offsets below the bound where "TIM1" starts |
| CdRom.MarkersExactly | src/cdrom.rs:101-115 | The scan finds exactly the (sector, offset) pairs with "TIM1" at an offset below 2044 |
| CdRom.WriteTimImages | src/cdrom.rs:101-115 | The loops visit the markers in sector and offset order |
| GpuViewer.NewVertexIsZero | src/psx/gpu_viewer.rs:10-17 | A new vertex has position, texture coordinate and colour all zero, so its texture coordinate in any page is the page's origin |
| GpuViewer.TexcoordReferenceInPage | src/psx/gpu_viewer.rs:25-41 | The page origin is a multiple of 64 up to 960 across and 0 or 256 down, and the coordinate lies within the page's 256 columns |
| GpuViewer.Texcoord | src/psx/gpu_viewer.rs:25-41 | The masks and shifts give the page origin plus `u` scaled by the colour depth (divided by 4 at 4 bits and by 2 at 8 bits), and the origin plus `v` |
| GpuViewer.PageOriginBits | src/psx/gpu_viewer.rs:26-28 | The masked and shifted fields of `texpage` are its page column, page row and colour depth |
| GpuViewer.NewPolygonIsBlank | src/psx/gpu_viewer.rs:65-77 | A new polygon has four new vertices, texture page 0 and every flag false, which makes it a "Monochrome Triangle" |
| GpuViewer.NameParts | src/psx/gpu_viewer.rs:86-100 | The name is "Shaded " if shaded, then "Textured " if textured or "Monochrome " if neither, then "Quad" or "Triangle" |
| GpuViewer.NameIdentifiesKind | src/psx/gpu_viewer.rs:86-100 | Two polygons have the same name exactly when they agree on being shaded, textured and a quad |
| GpuViewer.GpuFrame.constructor | src/psx/gpu_viewer.rs:108-113 | A new frame has no commands |
| GpuViewer.GpuFrame.Add | src/psx/gpu_viewer.rs:116-118 | The command is appended last |
| GpuViewer.GpuFrame.Take | src/psx/gpu_viewer.rs:121-123 | This frame gets the other frame's commands, and the other frame is left empty |
| CpuTypes.FromByte | src/system/cpu_types.rs:46-92 | The conversion is defined exactly on the declared opcodes and panics on every other byte |
| CpuTypes.DiscriminantOfFromByte | src/system/cpu_types.rs:46-92 | The variant decoded from a byte is declared with that byte as its discriminant |
| CpuTypes.FromByteOfDiscriminant | src/system/cpu_types.rs:3-92 | Every variant's discriminant is an opcode and decodes back to that variant |
| CpuTypes.FromByteInjective | src/system/cpu_types.rs:46-92 | Different opcodes decode to different variants |
| CpuTypes.OpCodeField | src/system/cpu_types.rs:134-136 | The opcode field is the top six bits of the word, so it is below 64 and fits the `u8` cast |
| CpuTypes.GetOpCode | src/system/cpu_types.rs:134-136 | The opcode decodes exactly when its field is a declared opcode, and the variant's discriminant is the field |
| CpuTypes.GetOpCodeExamples | src/system/cpu_types.rs:129-136 | `Instruction::new` gives the zero word, which decodes to the ALU-function opcode; opcode field 20 panics |
| Cpu.Tag | src/system/cpu.rs:48 | The tag is the top three bits of the address: below 8, and the address lies in the tag's 512 MB segment |
| Cpu.FetchableSegments | src/system/cpu.rs:47-65 | The fetch accepts exactly the addresses below 512 MB and those from 2 GB up to 3 GB |
| Cpu.ResetVectorIsFetchable | src/system/cpu.rs:12 | The reset vector has tag 5, so the first fetch does not panic |
| Cpu.Physical | src/system/cpu.rs:75 | The physical address is the address with its tag cleared, so it always lies below the end of the RAM mirror |
| Cpu.RamIndex | src/system/cpu.rs:75-80 | The RAM index is the address modulo the 2 MB RAM size |
| Cpu.DoInstructionRead | src/system/cpu.rs:70-90 | Every address reads the RAM byte at the address modulo 2 MB, widened to a word; the BIOS branch and the error are never reached |
| Cpu.RamIsMirrored | src/system/cpu.rs:70-90 | Addresses that differ by a multiple of 2 MB read the same byte |
| Cpu.ResetVectorReadsRamStart | src/system/cpu.rs:8-12 | The reset vector's physical address is 0x1FC00000, yet it reads the first byte of RAM |
| Cpu.CPU.constructor | src/system/cpu.rs:93-111 | A new CPU has `npc` at the reset vector and a cleared instruction |
| Cpu.CPU.FetchInstruction | src/system/cpu.rs:46-68 | The next instruction becomes the word read at `npc`, which is unchanged |
| Cpu.CPU.Execute | src/system/cpu.rs:38-44 | Fetches the instruction at `npc`, then advances `npc` by 4 without overflow |
| BasicReader.ToBytes | src/basic_reader.rs:16-25 | Writing words back gives four bytes per word |
| BasicReader.ReadRomFile | src/basic_reader.rs:16-25 | Word k of the program is bytes 4k..4k+3 of the file read big-endian |
| BasicReader.PacksIsToBytes | src/basic_reader.rs:21-23 | A program is the packing of a file exactly when writing the program back gives the file |
| BasicReader.Mnemonic | src/basic_reader.rs:38-46 | The opcode is the top six bits of the word, always a valid index into the 64-entry table, and the name is that table entry |
| BasicReader.Disassemble | src/basic_reader.rs:38-46 | The listing has one entry per word, in program order, each entry that word's opcode and mnemonic |
| BasicReader.OpcodeNamesExamples | src/basic_reader.rs:5-14 | Opcodes 2, 15 and 35 are listed as J, LUI and LW |
| BasicReader.NamedOpcodesDecode | src/basic_reader.rs:5-14 | Every opcode the table names decodes as an `InstructionOp` |
| Dma.DMA.constructor | src/system/dma.rs:6-11 | A new controller holds the reset value 0x07654321 |
| Dma.DMA.WriteRegister | src/system/dma.rs:12-14 | Writing sets the control register to the written value |
| Dma.DMA.ReadRegister | src/system/dma.rs:16-18 | Reading returns the control register, whatever the offset, and changes nothing |
| Dma.WriteThenRead | src/system/dma.rs:6-18 | A new controller reads as the reset value, and a read after a write returns the written value |

## Left out

- Saving and loading the agent (`save_agent`, `load_agent`) and `get_last_state_abstraction`: these are file I/O, serialisation and PNG/CSV encoding.
- `get_frame_abstraction` as a whole: it is orchestration over image-crate calls (cropping, dilation, luma conversion) that are not part of this model. Its steps are modelled one by one. For the same reason, Vision.GetLifeInfo takes the frame already converted to grey levels: the `to_luma8` call of `get_life_info` is not modelled. This also covers `apply_mask`, `get_detected_amount`, `enclose_with_q`, drawing (`draw_*`, `visualize_life_bars`) and the HUD images.
- `f32`/`f64` arithmetic is modelled with exact reals: rounding, NaN and infinity are not modelled. The MSE of an empty frame, a NaN in the source, is `None`.
- `usize`/`u32`/`u64` counters are unbounded: wrap-around of the iteration count, the state count and the MSE sum is not modelled.
- Randomness (`rand::thread_rng`) is a `random` byte parameter.
- `Duration` is a natural number of clock ticks, and `println!` output is left out everywhere.
- Vision.FindCentroid: the box is half-open as in the source, so its last row and column are never scanned, although `find_corners` returns an inclusive box. This is modelled as written.
- Vision.SegmentByProbability: it requires the box to fit the mask and the marked pixels of the box to lie in the frame, because the source's `get_pixel` calls would panic otherwise.
- Vision.SwapIfNeeded: it requires the histograms to have been built by `update_probabilities` (every entry seen at least once), because the source's division would otherwise give NaN.
- QLearning.Agent.VisitState: it requires the stored frames near the new one to have its dimensions, because `compute_mse` panics otherwise. It also requires that the search can report index 0 of an empty table only when `max_mse` is at most 65025, because `states.len() - 1` underflows otherwise.
- CdRom.FromFile: the file is given as its bytes; opening and reading errors other than the end of the file are not modelled.
- CdRom.Lossy: `String::from_utf8_lossy` is modelled for single bytes: ASCII is kept, and a byte of 128 or more becomes U+FFFD. Multi-byte UTF-8 sequences are not decoded.
- CdRom.WriteTimImages: the function returns the markers found. It leaves out the printing, the discarded results of `parse_tim_image`, and the panic of the 100-byte `data[j..j + 100]` slice for a marker past offset 1948.
- CdRom.MarkersExactly: the loop ends at offset 2044, as written (`0..data.len() - 4`), so a marker starting at offset 2044 is not found.
- CdRom.SystemInfo: it requires sector 16 to exist and the slice to lie within the sector's data, because the source's indexing panics otherwise.
- `CdRom::new`: it is an empty constructor.
- `GpuVertex::position` and `GpuVertex::colour`: these only convert fields to `f32`. The `InstructionFunct` enumeration is not used by any modelled operation.
- Cpu.DoInstructionRead: the BIOS branch is not modelled. Every physical address lies below `RAM_MIRROR_END`, so the branch is unreachable. The `BIOS_BASE` and `BIOS_MASK` constants it uses are not part of this model.
- The `Bus` in the source has no `ram` field; the 2 MB RAM is a parameter of the read.
- Masks and shifts in `cpu.rs`, `cpu_types.rs` and `basic_reader.rs` are written as remainders and quotients of unsigned integers. In `basic_reader.rs`, `instruction >> 26 as u8` shifts the `u32` word and indexes the table with the result, which is below 64.
- BasicReader.ReadRomFile: it requires a file length that is a multiple of four, because the last `chunk[3]` panics otherwise. Opening the file, `process::exit` and the `f32` progress percentage are not modelled.
