# jcvi synteny, assembly and format helpers in Dafny

This project models the core of several jcvi modules (Python 2) and proves
properties about that model.

- **algorithms/synteny.py**:
  - the single-linkage synteny scan (`synteny_scan`) and its score (`_score`);
  - grouping of hits by chromosome pair and the per-pair batch scan;
  - reading of BLAST and anchor files against two gene orders;
  - the anchor liftover filter;
  - `get_blocks`;
  - the `mcscan` action: blocks become ranges over the reference order, tracks are chained out of the pool, and each gene gets one column per track.
- **formats/bed.py**: BED line parsing and printing, the sorted `Bed` container, and `seqids`, `order`, `simple_bed` and `sub_bed`.
- **assembly/sopra.py**:
  - the `ContigLink` innie flip, the rejection by hang length, and the orientation and gap distance;
  - link lines and `bundle` (majority orientation per contig pair);
  - the edge loops and the final layout of `solve_component`;
  - `get_bname`.
- **formats/fastq.py**:
  - quality offsets and the four-line record reader;
  - `FastqLite` and its in-place reverse complement;
  - `splitread`;
  - barcode exclude lists and `split_barcode` (`deconvolute`);
  - `guessoffset`;
  - `pairinplace`.
- **formats/sbt.py**: `get_name_parts`, `parse_names`, the name-block template, and the table layout of `names` with its `N{i}` template keys.
- **assembly/kmer.py** (`histogram`):
  - the choice between the SOAP and meryl layouts, and the row decoding;
  - the k-mer total and the K-to-count table;
  - the rise/drop walk that picks the k-mer coverage;
  - the plotted part of the table.

Files (one module each):

- `util.dfy`: strings, ordering, sorting, decimal integers and Python slicing.
- `grouper.dfy`: the disjoint-set `Grouper` used by `synteny_scan`.
- `synteny.dfy`, `mcscan.dfy`, `bed.dfy`, `sopra.dfy`, `fastq.dfy`, `sbt.dfy`, `kmer.dfy`.

Code that updates state step by step is written as methods with loops. Those methods are proved against specification functions or predicates. Pure Python helpers are written as functions, with lemmas about them.

Where Python raises an exception (an `IndexError`, a `KeyError`, a failed `int()`, an assertion, a `chr` out of range, an unbound name), the model returns `None` or an error outcome. The caller is not required to rule such input out. The one precondition of this kind is on the `ContigLink` constructor, which requires the two conditions its assertions check; `Sopra.NewContigLink` is the construction from any values, with a failed assertion as `None`.

## Model

| member | source | states |
|---|---|---|
| Synteny.ScoreBounds | algorithms/synteny.py:39-44 | The score of a non-empty cluster is at least 1 and at most its number of distinct matches. It is exactly 1 when all matches share one x. |
| Grouper.JoinedSpec | algorithms/synteny.py:116-130 | Joining two items keeps the groups a partition. The two items end up together, in the union of their old groups, and every other group is unchanged. |
| Grouper.Grouper.constructor | algorithms/synteny.py:116 | A new Grouper holds no groups. |
| Grouper.Grouper.Join | algorithms/synteny.py:130 | `join(a, b)` sets the mapping to the joined partition, adds exactly `a` and `b` as keys, and only merges groups. |
| Grouper.Grouper.Groups | algorithms/synteny.py:133 | The groups handed out are non-empty and pairwise disjoint. Each is the group of each of its members. |
| Synteny.ScanBack | algorithms/synteny.py:120-130 | The backward scan from position i joins `s[i]` to every earlier point within both gaps, keeps the groups sound, and only merges groups. |
| Synteny.ScanComplete | algorithms/synteny.py:119-133 | After the scan, the groups are exactly the single-linkage partition of the points that have a partner. |
| Synteny.SortedCluster | algorithms/synteny.py:133 | `sorted(cluster)` is strictly sorted and holds exactly the group's points. |
| Synteny.SelectClusters | algorithms/synteny.py:132-134 | The result lists, once each and sorted, exactly the groups whose score is at least N. |
| Synteny.SyntenyScan | algorithms/synteny.py:110-136 | The clusters are the single-linkage groups under the two gap bounds, filtered by score. |
| Synteny.ScanClusters | algorithms/synteny.py:110-136 | Result clusters are pairwise disjoint. A point within both gaps of a member is in the same cluster. Any two members are linked by a chain of near points. |
| Synteny.LinkageGroupsUnique | algorithms/synteny.py:110-136 | There is only one single-linkage partition of a point set. |
| Synteny.ScanResultUnique | algorithms/synteny.py:110-136 | Any two results meeting the scan's contract hold the same clusters. |
| Synteny.Convert | algorithms/synteny.py:74-84 | A kept hit keeps its row. Its positions are the two genes' order positions, smaller first in a self comparison. Its chromosome names go with those positions. |
| Synteny.FilterBlastOrder | algorithms/synteny.py:63-86 | `read_blast` keeps rows in input order (the kept rows are a subsequence of the input). |
| Synteny.FilterBlastSound | algorithms/synteny.py:63-86 | Every hit is a mapped input row with the fields `read_blast` sets. |
| Synteny.FilterBlastKeys | algorithms/synteny.py:66-72 | Exactly one hit per (query, subject) pair of mapped rows: the pairs are distinct and are exactly the mapped pairs. |
| Synteny.ReadBlast | algorithms/synteny.py:56-88 | Unmapped rows are dropped, the first row of each pair is kept, and in a self comparison `qi <= si`. Order is kept and every mapped pair is present. |
| Synteny.HitPairs | algorithms/synteny.py:51 | Each hit becomes its (qseqid, sseqid) pair with its point (qi, si). |
| Synteny.GroupHits | algorithms/synteny.py:47-53 | Points are listed under their chromosome pair in input order, and the keys are exactly the pairs that occur. |
| Synteny.BatchKeys | algorithms/synteny.py:146 | The pairs, strictly sorted, are exactly the pairs of the hits. |
| Synteny.BatchScan | algorithms/synteny.py:139-151 | The result is the concatenation, in sorted pair order, of a synteny scan of each pair's points. |
| Synteny.ScanKeys | algorithms/synteny.py:146-149 | The loop of `batch_scan`: each key's points are scanned, and the result is the concatenation of the scans in key order. |
| Synteny.ReadAnchorRow | algorithms/synteny.py:97-105 | An empty line or a non-comment line that is not two words raises. A comment line or an unmapped gene is skipped. Otherwise the anchor is the two genes' chromosome pair and positions. |
| Synteny.AnchorsOfFails | algorithms/synteny.py:97-105 | Line results combine to a failure exactly when some line raised. |
| Synteny.AnchorsOfSpec | algorithms/synteny.py:97-105 | Otherwise the anchors are exactly those of the lines that give one. |
| Synteny.AnchorPairsFails | algorithms/synteny.py:97-100 | Reading the anchors fails exactly when some line raises. |
| Synteny.AnchorPairsSpec | algorithms/synteny.py:97-105 | On success, the anchors are exactly those the lines give. |
| Synteny.ReadAnchors | algorithms/synteny.py:91-107 | `read_anchors` fails iff a line raises. Otherwise it groups the anchors by chromosome pair in file order. |
| Synteny.Liftover | algorithms/synteny.py:154-172 | The output rows are, in input order, exactly the rows with an anchor within L1 distance below `dist` of their first two columns. |
| Synteny.BlockPointsSpec | algorithms/synteny.py:380-387 | A feature contributes its order position and midpoint iff its accession, without its version suffix, is in the order. |
| Synteny.GetBlocks | algorithms/synteny.py:379-391 | The blocks are a synteny scan of those feature points. |
| McScan.PairsMapSpec | algorithms/synteny.py:267 | `dict(zip(q, s))` has exactly the first-column genes as keys. Each maps to the partner on its last row. |
| McScan.MinIndex | algorithms/synteny.py:270-272 | `q[0]` after sorting is the smallest order position of the block's genes. |
| McScan.MaxIndex | algorithms/synteny.py:270-272 | `q[-1]` after sorting is the largest order position of the block's genes. |
| McScan.BlockRange | algorithms/synteny.py:263-272 | A block raises iff it is empty or a reference-side gene is not in the order. Otherwise its range has id i, score = block size, and spans exactly its genes' positions. |
| McScan.BuildRanges | algorithms/synteny.py:263-272 | The first loop gives range i and `block_pairs[i]` for every block, or fails iff some block raises. |
| McScan.Without | algorithms/synteny.py:283-284 | The pool filter keeps, in order, exactly the ranges whose id was not selected. |
| McScan.WithoutShrinks | algorithms/synteny.py:281-284 | Removing a non-empty selection from the pool makes it strictly smaller. |
| McScan.PassesFacts | algorithms/synteny.py:274-292 | Tracks are non-empty, drawn from the initial pool, and pairwise id-disjoint. The final pool holds exactly the ranges no track took. |
| McScan.Chain | algorithms/synteny.py:274-292 | The chaining loop stops at an empty pool or after `--iter` passes, with at most as many tracks as ranges. Tracks are disjoint and the pool holds what is left. |
| McScan.Atom | algorithms/synteny.py:298-303 | A gene's entry for a track is the partner from the first block of the track that has one, or "." iff none has. |
| McScan.Atoms | algorithms/synteny.py:296-306 | There is one atom per track, "." exactly when no block of the track pairs the gene, and only "x" or "." in ascii mode. |
| McScan.AsciiRow | algorithms/synteny.py:304-309 | An ascii row is the accession, a tab, then one character per track: 'x' iff some block of that track pairs the gene. |
| McScan.McScanRows | algorithms/synteny.py:255-309 | `mcscan` fails iff a block raises. Otherwise it prints one row per bed gene, from at most one track per block, with tracks id-disjoint. |
| Bed.ParseLine | formats/bed.py:17-23 | A parsed line has tab-free name fields, and any extra columns are non-empty. |
| Bed.PrintColumns | formats/bed.py:25-31 | `str(BedLine)` is its columns joined by tabs, with start printed 0-based. |
| Bed.ParsePrint | formats/bed.py:17-31 | Parsing a printed line gives back the same record. |
| Bed.PrintParse | formats/bed.py:17-31 | Printing a parsed line gives back the stripped input line. |
| Bed.ArgsColumns | formats/bed.py:17-31 | Reading back the printed columns of a record gives the record. |
| Bed.ColumnsArgs | formats/bed.py:17-31 | Printing the record read from some fields gives back those fields. |
| Bed.KeyLeTotalPreorder | formats/bed.py:44 | The default key (seqid, start, accn) is a total preorder. |
| Bed.ParseLinesFails | formats/bed.py:50-52 | One unparsable non-comment line makes the file fail. |
| Bed.ParseLinesSound | formats/bed.py:50-52 | Every record read comes from a non-comment line. |
| Bed.ParseLinesComplete | formats/bed.py:50-52 | Every line is a comment or gives a record that is read. |
| Bed.Bed.Empty | formats/bed.py:46-48 | A Bed without a file holds no records. |
| Bed.Bed.Read | formats/bed.py:39-54 | A Bed holds the file's records sorted by the default key: sorted, a permutation of the parsed lines, and records with equal keys in file order. |
| Bed.Seqids | formats/bed.py:60-62 | `seqids` is strictly sorted and holds exactly the sequence names of the records. |
| Bed.OrderSpec | formats/bed.py:64-67 | `order` has every accession as a key, pointing to its record at its last position. |
| Bed.SimpleBedOrder | formats/bed.py:65-71 | The `simple_bed` entry at an accession's order position holds that record's sequence name and position. |
| Bed.SubBed | formats/bed.py:74-78 | `sub_bed` gives, in stored order, exactly the records on one sequence. |
| Sopra.ParseLinkLine | assembly/sopra.py:22-32 | A link line is read iff it has at least six words and integer insert and distance. The fields are the first six words. |
| Sopra.GetOrientation | assembly/sopra.py:53-62 | The orientation is one of the four pairs, with '-' exactly for a name ending in '-'. It raises on an empty name. |
| Sopra.FirstFlip | assembly/sopra.py:73-86 | The start and end offsets follow the swap of `a` and `b`. |
| Sopra.InnieAfterFlip | assembly/sopra.py:77-88 | When `reverse_complement` turns strands, the flips always leave `a` on "+" and `b` on "-". |
| Sopra.FlipRejects | assembly/sopra.py:93-109 | A link is rejected iff the flips succeed, the contig size is known and the hangs exceed the cutoff. |
| Sopra.FlipLinked | assembly/sopra.py:104-133 | A kept link has hangs within the cutoff and the distance of its orientation. Its final orientation is the one read from the final names. |
| Sopra.InnieDistance | assembly/sopra.py:113-119 | An innie pair keeps the distance `insert + Pa + Pb`. |
| Sopra.ContigLink.constructor | assembly/sopra.py:37-45 | A link holds its mates, insert and cutoff, with `0 < insert < cutoff`. |
| Sopra.NewContigLink | assembly/sopra.py:37-45 | Constructing a link fails iff the insert is not positive or the cutoff does not exceed it. Otherwise it is a fresh link with the given mates, insert and cutoff, and no distance or orientation. |
| Sopra.ContigLink.FlipInnie | assembly/sopra.py:64-133 | `flip_innie` leaves the link's mates, distance and orientation as the flip function gives them, and returns its outcome. |
| Sopra.FlipPair | assembly/sopra.py:64-133 | The step-by-step flip computes exactly the flip function's mates, distance, orientation and outcome. |
| Sopra.ContigLink.Str | assembly/sopra.py:47-51 | `str(link)` is defined iff distance and orientation have been set (the source raises otherwise). |
| Sopra.LinkRoundTrip | assembly/sopra.py:47-51 | A printed link splits on tabs back into the names without the '-' suffix, the orientation, the insert and the distance. |
| Sopra.LinkPairs | assembly/sopra.py:201-203 | Each link becomes its contig pair with (orientation, distance). |
| Sopra.Majority | assembly/sopra.py:208-212 | The chosen orientation is observed and no orientation is seen more often. Its distances are all of its observations in order. |
| Sopra.MajorityCount | assembly/sopra.py:212-216 | The majority reaches `--links` iff some orientation does. |
| Sopra.GraphKeys | assembly/sopra.py:200-203 | The grouped links have exactly the joined contig pairs as keys. |
| Sopra.GroupLinks | assembly/sopra.py:198-201 | The first loop groups the observations by contig pair in input order, and its keys are exactly the pairs that occur. |
| Sopra.BundleGraph | assembly/sopra.py:203-220 | A pair keeps an edge iff its majority orientation reaches `--links`. That edge is built from the pair's observations. |
| Sopra.Bundle | assembly/sopra.py:182-220 | A pair is bundled iff it occurs and some orientation reaches `--links`. The edge is then its majority orientation, that orientation's distances and their count. |
| Sopra.IndexOf | assembly/sopra.py:392-393 | `inodes[x]` is the position of x among the nodes. |
| Sopra.Ends | assembly/sopra.py:400-402 | The edge's endpoints as node positions, low one first. |
| Sopra.SignEdge | assembly/sopra.py:397-404 | A sign edge has the ordered endpoints and '+' iff the orientation's two characters agree. It raises on an orientation shorter than two. |
| Sopra.SignEdges | assembly/sopra.py:396-404 | `ledges` is the sign edge of every edge in order, or fails iff some orientation is too short. |
| Sopra.DistanceEdge | assembly/sopra.py:414-430 | An edge raises iff its orientation is missing from the flip table. A kept edge has the ordered endpoints and its distance, maybe negated. |
| Sopra.PlaceEdge | assembly/sopra.py:414-430 | The loop body computes exactly the edge's distance edge, or the failure on a missing orientation. |
| Sopra.KeptEdgesSpec | assembly/sopra.py:413-430 | `dedges` holds exactly the kept edges, each with ordered endpoints. |
| Sopra.DistanceEdges | assembly/sopra.py:413-430 | The second loop gives exactly the kept edges, or fails iff an orientation is missing from the flip table. |
| Sopra.PlaceNode | assembly/sopra.py:436-446 | A node spans its size. With a negative sign it ends at its position on '-', otherwise it starts there on '+'. |
| Sopra.Placements | assembly/sopra.py:436-446 | `zip(nodes, signs, positions)` is cut to the shortest list, and each node is placed. |
| Sopra.PlaceAll | assembly/sopra.py:436-446 | The placement loop fails iff some node within the shortest list has no size. Otherwise it gives the placements. |
| Sopra.Layout | assembly/sopra.py:435-457 | The layout fails iff there is nothing to place or a node has no size. Otherwise it is the placements sorted by start, each spanning its size, and places with equal starts keep their input order. |
| Util.SortByStable | assembly/sopra.py:450 | The sort is stable: the elements equal to any given one come out in their input order. |
| Sopra.GetBName | assembly/sopra.py:337-338 | With `--prefix` the name is the contig name up to its last '_' (the prefix followed by a '_' with no '_' after it), or the whole name when there is no '_'. Otherwise it is "chr0". |
| Util.BeforeLastSpec | assembly/sopra.py:338 | `rsplit(c, 1)[0]` is the whole string without a `c`, and otherwise the text before a `c` that no later `c` follows. |
| Fastq.QualOffset | formats/fastq.py:21 | The offset is 33 iff the encoding is "sanger", and 64 otherwise. |
| Fastq.Codes | formats/fastq.py:61-62 | `quality` is the character codes of the quality string. |
| Fastq.Shift | formats/fastq.py:47-48 | The shift succeeds iff the offset is 0 or every shifted code is a byte. Each code is then moved by the offset. |
| Fastq.ShiftBack | formats/fastq.py:47-48 | Shifting by an offset and back restores the codes. |
| Fastq.ReadRecordSpec | formats/fastq.py:39-52 | A blank name line ends the stream. A bad shift or a length mismatch fails. Otherwise the record holds the name, stripped sequence, shifted quality and key id. |
| Fastq.RecordAt | formats/fastq.py:65-77 | A record is read only from lines inside the file. |
| Fastq.Records | formats/fastq.py:65-77 | No read past the file's end is a record. |
| Fastq.Low | formats/fastq.py:316 | The count of low codes is at most the record length. |
| Fastq.High | formats/fastq.py:317 | The count of high codes is at most the record length. |
| Fastq.HighLowBound | formats/fastq.py:316-318 | High and low counts never overlap, so `diff` is bounded by the length. |
| Fastq.Guess | formats/fastq.py:311-331 | The guessed offset is 33 or 64. |
| Fastq.GuessStep | formats/fastq.py:314-324 | An undecided record passes the guess on, and a Sanger-looking record gives 33. |
| Fastq.SangerFound | formats/fastq.py:314-324 | Undecided records up to a Sanger-looking one give 33. |
| Fastq.SangerWitness | formats/fastq.py:314-324 | A guess of 33 has a Sanger-looking record after only undecided ones. |
| Fastq.GuessSanger | formats/fastq.py:311-331 | The guess is 33 iff a Sanger-looking record comes after only undecided ones. |
| Fastq.GuessOffset | formats/fastq.py:281-331 | The loop returns the guess of the file's records. |
| Fastq.RecordTextLines | formats/fastq.py:30-31 | A printed record splits into its name, sequence, "+" and quality lines. |
| Fastq.FastqLite.constructor | formats/fastq.py:25-28 | A light record holds the given name, sequence and quality. |
| Fastq.FastqLite.Str | formats/fastq.py:30-31 | `str(rec)` splits back into the record's four lines. |
| Fastq.FastqLite.Rc | formats/fastq.py:33-35 | `rc()` reverse-complements the sequence and reverses the quality in place, keeping the name. |
| Util.ReverseInvolution | formats/fastq.py:35 | Reversing twice gives the sequence back, so `rc` twice restores the quality. |
| Fastq.SplitRead | formats/fastq.py:426-435 | Both halves are named "@name". The first is the first n bases and qualities, the second the rest (reverse-complemented with `--rc`). The halves put back together give the read. |
| Fastq.ParseBarcode | formats/fastq.py:148 | A barcode line is read iff it has exactly two words, which become the id and the sequence. |
| Fastq.ExcludedSpec | formats/fastq.py:152-162 | The exclude list of a barcode holds exactly the barcodes that extend it, in file order. |
| Fastq.ExcludeLists | formats/fastq.py:151-162 | One exclude list per barcode, or a failure iff two ids share a sequence. |
| Fastq.SplitBarcode | formats/fastq.py:103-117 | The reads written for a barcode are those it starts and no excluded barcode starts, trimmed. |
| Fastq.SplitBarcodeInOrder | formats/fastq.py:103-117 | The written reads keep their input order: they are a subsequence of the trimmed input. |
| Fastq.KeepsPrefix | formats/fastq.py:112-117 | A kept read starts with the barcode, and the written sequence is what follows it. |
| Fastq.KeptByLongest | formats/fastq.py:112-116 | Every other barcode that starts a read kept for `bc` is shorter than `bc`. |
| Fastq.DeconvoluteUnambiguous | formats/fastq.py:103-172 | No read is written for two barcodes of different ids. |
| Fastq.PairInPlace | formats/fastq.py:552-604 | Adjacent records with the same id go out as pairs, in order. Every other record goes out as a fragment. Each record is written exactly once. An empty file fails. |
| Sbt.Dotted | formats/sbt.py:51 | The middle tokens are the tokens that end in '.'. |
| Sbt.Undotted | formats/sbt.py:54 | The last-name tokens are the tokens that do not end in '.'. |
| Sbt.NamePartsExample | formats/sbt.py:44-47 | "Fares Z. Najar" gives ('Najar', 'Fares', 'F.Z.'). |
| Sbt.NamePartsPlain | formats/sbt.py:49-56 | A first name not ending in '.' gives the undotted later words as the last name. Initials are the first letter, '.', then the dotted tokens. |
| Sbt.NamePartsFullMiddle | formats/sbt.py:57-59 | A first name ending in '.' splits iff there are two undotted later words. The first is then the middle name. |
| Sbt.NamePartsDefined | formats/sbt.py:42-61 | Exactly the names the original can split give a result. |
| Sbt.NameTemplateLines | formats/sbt.py:18-25 | A filled name block reads back line by line with each field on its own line. |
| Sbt.DeleteDigits | formats/sbt.py:82 | The result has no digits. |
| Sbt.DeleteDigitsSubseq | formats/sbt.py:82 | Deleting digits keeps the other characters in order, and a digit-free string is unchanged. |
| Sbt.AuthorsFromSpec | formats/sbt.py:78-84 | The authors are exactly the stripped, non-blank, digit-free comma pieces. |
| Sbt.AuthorsOfSpec | formats/sbt.py:76-84 | The authors of a section are its cleaned comma pieces, free of commas and digits. |
| Sbt.NameBlock | formats/sbt.py:91-94 | A name block exists iff the name splits. |
| Sbt.BlocksSpec | formats/sbt.py:88-95 | There is one block per author, in order, or none at all iff some name does not split. |
| Sbt.SectionAuthors | formats/sbt.py:75-84 | The first inner loop collects the cleaned authors of a section. |
| Sbt.CleanPieces | formats/sbt.py:77-83 | Each comma piece is stripped and kept, digits deleted, unless blank. |
| Sbt.AuthorsFromNoComma | formats/sbt.py:77-83 | Authors cut from comma-free pieces hold no comma. |
| Sbt.SectionText | formats/sbt.py:89-96 | The second inner loop gives the joined name blocks of a list of authors. |
| Sbt.AllAuthors | formats/sbt.py:74-85 | The first pass gives each section's cleaned author list, in section order. |
| Sbt.AllTexts | formats/sbt.py:87-97 | There is one text per author list, or failure iff some name does not split. |
| Sbt.ParseNames | formats/sbt.py:64-99 | `parse_names` gives one joined block text per section, or fails iff a name does not split. |
| Sbt.NormMiddle | formats/sbt.py:152-154 | A normalised middle initial is empty iff it was blank. |
| Sbt.NormMiddleDot | formats/sbt.py:152-154 | A non-blank middle initial ends in exactly one '.'. |
| Sbt.NormMiddleIdempotent | formats/sbt.py:152-154 | Normalising twice changes nothing more. |
| Sbt.Width | formats/sbt.py:161 | `zip(*bools)` is no longer than any row's extra columns. |
| Sbt.WidthSpec | formats/sbt.py:161 | Some row has exactly `Width` extra columns. |
| Sbt.Picked | formats/sbt.py:164-167 | The blocks picked by one list of flags are no more than the blocks. |
| Sbt.PickedMembers | formats/sbt.py:164-167 | A block is picked iff it sits at a position whose flag is set. |
| Sbt.PickedInOrder | formats/sbt.py:164-167 | The picked blocks form a subsequence of the blocks. |
| Sbt.SelectedMembers | formats/sbt.py:163-168 | List i holds a row's block iff that row says yes in extra column i. |
| Sbt.SelectedInOrder | formats/sbt.py:163-168 | List i keeps the blocks in row order. |
| Sbt.RowFlags | formats/sbt.py:151 | The flags are one per extra column: true iff it upper-cases to "Y". |
| Sbt.ReadRows | formats/sbt.py:148-159 | The row loop succeeds iff every row is readable, and then gives each row's block and flags. |
| Sbt.ZipWidth | formats/sbt.py:161 | The computed width is the number of lists `zip(*bools)` yields. |
| Sbt.SelectColumn | formats/sbt.py:164-167 | The inner loop picks the blocks whose flag i is set, in row order. |
| Sbt.JoinColumns | formats/sbt.py:161-168 | Text i is the ",\n"-join of the blocks picked by list i of `zip(*bools)`, one text per list. |
| Sbt.RowAt | formats/sbt.py:148-159 | Row k contributes its own name block and its own yes/no flag to list i. |
| Sbt.Names | formats/sbt.py:140-169 | `names` needs more than three header columns and readable rows. List i is then the ",\n"-join of the blocks selected by column i, with `zip(*bools)` lists in all. |
| Sbt.KeyInjective | formats/sbt.py:105 | Distinct list positions get distinct `N{i}` keys. |
| Sbt.TemplateKeys | formats/sbt.py:105 | List i is substituted under key `N{i}`. |
| Sbt.TemplateKeysOnly | formats/sbt.py:105 | The mapping has no keys except `N{i}` for list positions i. |
| Kmer.GuessFormat | assembly/kmer.py:71-77 | The first pass chooses SOAP iff some row has exactly one field. |
| Kmer.SoapRowRoundTrip | assembly/kmer.py:80-82 | A printed count on SOAP row i reads back as (i + 1, count). |
| Kmer.MerylRowRoundTrip | assembly/kmer.py:84-85 | A meryl row "K count ..." reads back as (K, count), whatever columns follow. |
| Kmer.DecodeSpec | assembly/kmer.py:79-85 | Decoding succeeds iff every row decodes, and row i then gives pair i. |
| Kmer.SoapKs | assembly/kmer.py:80-81 | In the SOAP layout, the Ks are 1, 2, ..., one per row. |
| Kmer.TotalAppend | assembly/kmer.py:87-88 | The total adds up over any split of the rows, so overwritten rows still count. |
| Kmer.HistSpec | assembly/kmer.py:89 | `hist` has exactly the rows' Ks as keys. Each has the count of the last row with that K. |
| Kmer.SoapHist | assembly/kmer.py:79-89 | A SOAP table has keys exactly 1..n, with K = i + 1 mapping to row i's count. |
| Kmer.Ks | assembly/kmer.py:89 | The Ks seen are the rows' Ks in order. |
| Kmer.KsKeys | assembly/kmer.py:89 | The Ks seen are exactly the keys of `hist`. |
| Kmer.Tally | assembly/kmer.py:79-89 | The second pass fails iff a row does not decode. Otherwise it leaves the table, total and Ks of the decoded rows. |
| Kmer.ReadRows | assembly/kmer.py:79-89 | The second pass in the chosen layout gives the table, total and Ks of the decoded file. |
| Kmer.ItemLeTotalOrder | assembly/kmer.py:92 | Python's order on (K, count) tuples is total. |
| Kmer.ItemsUnique | assembly/kmer.py:92 | A table has only one sorted item list. |
| Kmer.SortedItems | assembly/kmer.py:92 | `sorted(hist.items())` is strictly sorted and holds exactly the table's entries. |
| Kmer.TwoItems | assembly/kmer.py:92 | There is a pair to walk iff the table has two distinct keys. |
| Kmer.StopFrom | assembly/kmer.py:92-102 | The walk breaks, if it does, at a pair inside the list. |
| Kmer.Walk | assembly/kmer.py:91-105 | The loop's `Ka` is the coverage function of the items. |
| Kmer.StopFromPeak | assembly/kmer.py:95-102 | Walking on from pair j with the history built so far breaks at the first peak at or after j. |
| Kmer.StopIsFirstPeak | assembly/kmer.py:91-102 | The walk breaks exactly at the first drop that follows a rise, and runs to the end iff there is none. |
| Kmer.CoverageIsLocalMax | assembly/kmer.py:91-105 | At a break, the coverage K has a count that rose into it and drops after it. |
| Kmer.PlottedSpec | assembly/kmer.py:115 | The plotted series holds exactly the items with K <= 100, strictly sorted. |
| Kmer.PlottedIsCut | assembly/kmer.py:115 | The plotted series is the sorted item list of the table cut to K <= 100. |
| Kmer.TableItems | assembly/kmer.py:92 | The walked items are the sorted item list of the table built from the rows. |
| Kmer.CoverageDefined | assembly/kmer.py:92-105 | There is a coverage iff there is a pair, and it is the K of an item. |
| Kmer.PlottedNonEmpty | assembly/kmer.py:115-116 | The series is empty iff no K in the table is at most 100. |
| Kmer.ReportSpec | assembly/kmer.py:87-116 | The report exists iff the table has two keys, the coverage is not 0 and some K is at most 100. It then gives the total, a coverage key, and the cut series. |
| Kmer.Histogram | assembly/kmer.py:49-116 | `histogram` runs both passes, the walk and the cut, and gives the histogram of the file. |

## Left out

- Strings: Python 2 `str` is a byte string, while a Dafny `string` is a sequence of Unicode characters. The model does not restrict characters to bytes, so for example `Fastq.Codes` can give codes above 255 that the source never sees.
- Files, standard output and standard error, logging, option parsing and the command-line dispatchers. A file is its list of lines (or of parsed rows); printed output is the list of values printed.
- Grouper: `jcvi.utils.grouper` is not part of this model. The Grouper is modelled as a disjoint-set map from each joined item to its group. Only items that took part in a join are members. The order in which it hands out groups is arbitrary in the model.
- SyntenyScan: the source sorts the caller's list in place. The model sorts a copy (a sequence value), so the aliasing effect on the caller is not modelled. The clusters come out in an unspecified order, matching the Grouper's iteration order.
- Liftover: `scipy.spatial.cKDTree` is replaced by a brute-force search for an anchor at L1 distance strictly below `dist`. This matches `distance_upper_bound`. The numpy array conversion is not modelled.
- McScan.Chain: `range_chain` (jcvi.utils.range) is not part of this model. It is a parameter, assumed only to return a non-empty selection drawn from a non-empty pool. The chain score it returns, `range_depth` and the interleave checks are not modelled.
- McScan.BlockRange: the range's start and end are the order positions, not the `(index, BedLine)` tuples the source stores. Positions are distinct per gene, so sorting by either gives the same end points. The sequence name "0" is kept.
- Anchor files: `AnchorFile.iter_blocks` (jcvi.formats.base) is not part of this model. `mcscan` takes its blocks as lists of gene pairs.
- BLAST lines: `BlastLine` parsing (jcvi.formats.blast) is not part of this model. A row is its query, subject and remaining columns.
- Bed: a caller-supplied sort key is not modelled; only the default key (seqid, start, accn) is. `print_to_file` and `LineFile` are I/O.
- Sopra: `BedLine.reverse_complement` and `Sizes` (jcvi.formats.bed, jcvi.formats.sizes) are not part of this model. The first is a parameter `rc` with nothing known about it, and contig sizes are a map.
- Sopra: `determine_signs`, `determine_positions` (jcvi.algorithms.matrix) and `orientationflips` (jcvi.assembly.base) are not part of this model. Signs and positions are inputs, and the flip table is a map.
- Sopra: networkx's connected components, the AGP writer, the `query` and `link` actions, the scaffold buckets, and the singletons loop of `scaffold` are not modelled.
- Sopra.Bundle: `np.median` of the distances is not computed. The bundled edge keeps the list of distances whose median the source prints. Which of several equally frequent orientations wins depends on dictionary order and is left open.
- Sopra.Layout: the offset subtracted at the end of `solve_component` changes only the loop's local variables and the log. The returned list is not shifted, and the model returns it the same way.
- Fastq: reverse complement of a DNA string (`jcvi.formats.fasta.rc`) is a parameter. `FastqGeneralIterator` (Biopython) is a list of (title, sequence, quality) reads.
- Fastq: `shuffle`, `split`, `some`, `trim`, `size`, `convert`, `unpair` and `pair` are file plumbing or calls to external tools and are not modelled. `pair` needs two files read in lockstep.
- Fastq.PairInPlace: the ids are given. The case `-r 0`, where `strip_name` returns the `str` type itself, is not modelled.
- Fastq.DeconvoluteUnambiguous: the worker pool of `deconvolute` is not modelled. Each barcode's output is computed by `SplitBarcode` alone.
- Sbt: `read_block` (jcvi.formats.base), the csv reader and `string.Template` substitution are not part of this model. Sections and rows are inputs, and the template is the `N{i}` mapping.
- Kmer: the genome-size estimate (floating point) and the plot (asciiplot, matplotlib) are not modelled. A zero coverage and an empty plotted series still make the model fail, as the division and the unpacking would raise. `meryl` runs an external tool and is not modelled.
- Kmer.SortedItems: Python 2's `hist.items()` is given as a list of the table's keys in any order. Sorting makes the order irrelevant.
