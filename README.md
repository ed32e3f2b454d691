# Molecular networking of MS/MS spectra, modelled in Dafny

This project models the core of a small toolkit for mass-spectrometry molecular networking.
Spectra are read as lists of fragment peaks, each with a precursor mass. Every pair of spectra
is scored with a cosine score that matches fragment peaks one-to-one, either greedily or by a
maximum-weight matching. The scores above a threshold become the edges of a network with one
node per spectrum. Two filters then thin the network:

- `filter_neighbors` keeps each node's M best edges;
- `filter_family` cuts the weakest edges of every connected component (a "family") until no
  family has more than M nodes.

The toolkit exists in two package versions, `msmolnet` and `mol_networking`, next to an early
prototype (`similarity_calc.py`, `DataClasses.py`). Each module of the model follows one source
file or one shared concept:

| module | file | models |
|---|---|---|
| Wrappers | wrappers.dfy | `Option`, `Result` and the exceptions the source raises (`KeyError`, `IndexError`, `AttributeError`) |
| Spectra | spectrum.dfy | the `Peak` and `Spectrum` classes of both packages (`msmolnet/Spectrum.py`, `mol_networking/Spectrum.py`) |
| Sorting | sorting.dfy | Python's stable `sorted(..., reverse=True)` on a key |
| Alignment | alignment.dfy | the peak-pair candidates, the greedy scan and the summing loops of the scorers |
| Similarity | similarity.dfy | `msmolnet/similarity.py`: both cosine scores, `compare_all`, `filter_pairs` |
| MolSimilarity | mol_similarity.dfy | `mol_networking/similarity.py`, which reads an attribute its peaks never have |
| MatchMaps | matchmaps.dfy | the symmetric two-level match dictionary and the four statements that store into it |
| Graphs | graph.dfy | the part of a networkx `Graph` the core uses: nodes, edges with records, attributes, components |
| Network | network.dfy | `msmolnet/network.py`, `make_network` |
| MolNetwork | mol_network.dfy | `mol_networking/network.py`, `make_network` |
| Filters | filters.dfy | `filter_neighbors` of both packages |
| Families | family.dfy | `filter_family` of both packages |
| Converters | converters.dfy | the matchms adapters `convert_scores`, `convert_to_dictionary`, `convert_spectrum` |
| SimilarityCalc | similarity_calc.dfy | the prototype script: its `Spectrum`, `cosine_score` and the pair loop of `main` |
| DataClasses | dataclasses.dfy | the prototype data classes: `compare_peaks`, `compare_precursor_mass` |
| CosineTests | cosine_tests.dfy | the fixtures of `msmolnet/tests/test_cosine.py` |

Objects that the source updates in place are Dafny classes, and their methods carry `modifies`
clauses:

- the spectra of each version;
- the networkx graph (`Graphs.Graph`), whose edge list the two filters shrink.

Pure computations are functions, and each loop of the source is a method proved equal to the
function that specifies it. Masses, intensities and scores are `real`. Python's rounding is not
modelled.

Four things enter as parameters because the source gets them from code it calls:

- the scaled intensities (a square root over numpy norms);
- `max_weight_matching`, as a function `matcher` that is assumed to return a maximum-weight
  matching;
- the iteration order of nodes;
- `str` of a parameter value, as an uninterpreted `Printed` value.

## Model

| member | source | states |
|---|---|---|
| `Spectra.Spectrum.constructor` | msmolnet/Spectrum.py:19-23 | a new spectrum has no peaks, no precursor mass, no feature id, empty parameters and no library parameters |
| `Spectra.Spectrum.AddPeak` | msmolnet/Spectrum.py:36-39 | exactly one unscaled peak with the given mass and intensity is appended; the earlier peaks and every other field are unchanged |
| `Spectra.Spectrum.SetId` | mol_networking/Spectrum.py:42-46 | the feature id becomes the value under 'scans', else under 'SCANS', else stays as it was; nothing else changes |
| `Spectra.IdFrom` | msmolnet/Spectrum.py:56-62 | 'scans' takes precedence over 'SCANS', and with neither key the previous id is kept |
| `Spectra.SetIdIdempotent` | msmolnet/Spectrum.py:59-62 | setting the id a second time leaves it where the first call put it |
| `Spectra.Spectrum.Lt` | mol_networking/Spectrum.py:17-21 | `__lt__` compares the two precursor masses strictly |
| `Spectra.LtStrictOrder` | msmolnet/Spectrum.py:29-33 | `__lt__` by precursor mass is irreflexive, asymmetric and transitive |
| `Sorting.SortDesc` | msmolnet/similarity.py:77 | the sorted list is a permutation of the input (same multiset) in non-increasing key order |
| `Sorting.SortDescStable` | msmolnet/network.py:65 | the sort is stable: elements with equal keys keep their relative input order |
| `Alignment.RowCandidatesExact` | msmolnet/similarity.py:66-73 | for one first-spectrum peak, a candidate is listed iff it pairs that peak with an existing second-spectrum peak in the window, weighted by the product of the scaled intensities |
| `Alignment.CandidatesExact` | msmolnet/similarity.py:65-73 | `peak_pairs` holds a candidate iff both indices exist, the masses lie within the tolerance directly or after the precursor shift (closed window), and its weight is the product of the two scaled intensities |
| `Alignment.UnmodifiedWindow` | msmolnet/similarity.py:59-69 | with the modification off the shift is 0 and the window is just `abs(m1 - m2) <= tolerance` |
| `Alignment.CandidatesInLoopOrder` | msmolnet/similarity.py:65-73 | candidates come in strictly increasing (i, j) order, so no peak pair occurs twice |
| `Alignment.CollectCandidates` | msmolnet/similarity.py:62-73 | the two nested loops build exactly the candidate list of the specification |
| `Alignment.GreedySelect` | msmolnet/similarity.py:80-104 | the scan over the sorted candidates returns the sum of the accepted products and the number of accepted pairs |
| `Alignment.AcceptedIsMatching` | msmolnet/similarity.py:94-102 | the accepted pairs use no peak of either spectrum twice |
| `Alignment.AcceptedWithin` | msmolnet/similarity.py:88-102 | every accepted pair is a candidate, and no more pairs are accepted than there are candidates |
| `Alignment.AcceptedPrefix` | msmolnet/similarity.py:88-102 | the scan only appends: what a prefix of the candidates accepted is a prefix of what all of them accept |
| `Alignment.AcceptedStep` | msmolnet/similarity.py:94-102 | a candidate is accepted exactly when neither of its peaks is already used |
| `Alignment.GreedyMaximal` | msmolnet/similarity.py:77-102 | over candidates sorted by descending product, each candidate is accepted or shares a peak with an earlier accepted one of at least its weight |
| `Alignment.MatchingBound` | msmolnet/similarity.py:94-102 | a matching over the candidates has at most as many pairs as either spectrum has peaks |
| `Alignment.GreedyBound` | msmolnet/similarity.py:80-104 | the greedy pairs form a matching, and their count is bounded by both peak counts |
| `Alignment.GreedyEmpty` | msmolnet/similarity.py:84-104 | greedy accepts nothing iff there are no candidates |
| `Alignment.SumMatched` | msmolnet/similarity.py:147-152 | the nested summing loops compute the total weight of the candidates the matching joins |
| `Alignment.PairSumOfMember` | msmolnet/similarity.py:149-152 | when each peak pair occurs once, the inner loop finds exactly the product of the candidate a matching entry joins, in either orientation |
| `Alignment.MatchedTotalOfPairs` | msmolnet/similarity.py:145-152 | summing over the graph edges of a set of candidates gives the sum of their products |
| `Alignment.AsPairsIsMatching` | msmolnet/similarity.py:135-142 | candidates that share no peak give a matching of the candidate graph B |
| `Alignment.MaxAtLeastGreedy` | msmolnet/similarity.py:142-152 | a maximum-weight matching totals at least the greedy total over the same candidates |
| `Alignment.MaxBound` | msmolnet/similarity.py:142-145 | `len(matching)` is at most the peak count of either spectrum |
| `Alignment.MatchingWithin` | msmolnet/similarity.py:142-145 | `len(matching)` is at most the number of candidates |
| `Alignment.MaxEmpty` | msmolnet/similarity.py:142-154 | with no candidates the only matching is empty and the total is 0 |
| `Similarity.CosineScoreGreedy` | msmolnet/similarity.py:50-104 | the method returns the greedy specification: (0, 0) outside the precursor gate, otherwise the total and count of the greedy matching of the shifted candidates |
| `Similarity.CosineScoreMax` | msmolnet/similarity.py:106-154 | the method returns the max specification: (0, 0) outside the gate, otherwise the total and `len` of the matcher's matching of the candidate graph |
| `Similarity.PrecursorGate` | msmolnet/similarity.py:55-57 | a precursor difference above the tolerance scores (0, 0) with both scorers; a difference of exactly the tolerance is scored |
| `Similarity.GreedyScoreMeaning` | msmolnet/similarity.py:55-104 | the greedy count is bounded by both peak lists, is 0 iff the gate rejects or there is no candidate, and a count of 0 has score 0 |
| `Similarity.MaxScoreAtLeastGreedy` | msmolnet/similarity.py:106-154 | with a maximum-weight matcher the max score is at least the greedy score, and its count is bounded by both peak lists |
| `Similarity.IndexPairsMembers` | msmolnet/similarity.py:20-27 | the loops visit exactly the pairs i < j < n |
| `Similarity.IndexPairsOrdered` | msmolnet/similarity.py:20-27 | pairs are visited in lexicographic order, so none twice |
| `Similarity.AllIndexPairs` | msmolnet/similarity.py:20-26 | each visited pair indexes two existing spectra, the smaller index first, and none repeats |
| `Similarity.ScorePair` | msmolnet/similarity.py:30-33 | the inner loop body calls the scorer the `greedy` flag selects |
| `Similarity.KeptStep` | msmolnet/similarity.py:36-46 | one more visited pair adds its record unless its score is the (0, 0) sentinel |
| `Similarity.KeptLast` | msmolnet/similarity.py:26-46 | with distinct spectra, the last record stored for (i, j) is the pair's score iff the pair was visited and did not score (0, 0) |
| `Similarity.CompareRow` | msmolnet/similarity.py:26-46 | the inner loop turns the dictionary of the rows before i into that of the rows up to and including i |
| `Similarity.CompareAll` | msmolnet/similarity.py:13-48 | `compare_all` returns the dictionary built by storing, in visiting order, every non-sentinel record |
| `Similarity.CompareAllSymmetric` | msmolnet/similarity.py:39-46 | the dictionary is symmetric: [a][b] and [b][a] hold the same record |
| `Similarity.CompareAllContents` | msmolnet/similarity.py:20-46 | for distinct spectra i < j, the pair is stored in both directions iff its score is not (0, 0), and no spectrum is matched with itself |
| `Similarity.FilterPairs` | msmolnet/similarity.py:156-175 | the two loops return the thresholded dictionary without empty rows, and overwrite the argument with the thresholded rows |
| `Similarity.ThresholdEach` | msmolnet/similarity.py:161-165 | the first loop replaces every inner dictionary by its entries meeting both thresholds |
| `Similarity.DropEmpty` | msmolnet/similarity.py:168-173 | the second loop keeps exactly the spectra whose thresholded row is not empty |
| `Similarity.FilterPairsExact` | msmolnet/similarity.py:161-175 | an entry survives iff its cosine and its peak count both meet their inclusive thresholds, and no row is left empty |
| `Similarity.FilterPairsSymmetric` | mol_networking/similarity.py:157-184 | filtering a symmetric dictionary leaves it symmetric |
| `Similarity.FilterPairsIdempotent` | msmolnet/similarity.py:156-175 | filtering twice with the same thresholds gives the result of filtering once |
| `MolSimilarity.FindWindowPair` | mol_networking/similarity.py:65-70 | the candidate loop reaches a pair inside the window iff some peak pair lies in it |
| `MolSimilarity.WindowPairCandidates` | mol_networking/similarity.py:69 | some peak pair lies in the window iff msmolnet's candidate list is not empty |
| `MolSimilarity.MolCosineScoreGreedy` | mol_networking/similarity.py:50-104 | the greedy scorer returns (0, 0) outside the gate or with no pair in the window, and raises AttributeError otherwise |
| `MolSimilarity.MolCosineScoreMax` | mol_networking/similarity.py:106-155 | the max scorer raises AttributeError when the gate passes and a pair is in the window; otherwise it returns the matcher's result on the empty graph |
| `MolSimilarity.MolScoresVersusMsmolnet` | mol_networking/similarity.py:55-70 | compared with msmolnet on the same peaks: this package raises iff the gate passes and there is a candidate, and otherwise returns msmolnet's result |
| `MolSimilarity.MolScoresNeverMatch` | mol_networking/similarity.py:106-155 | a score of this package that does not raise is always (0, 0) |
| `MolSimilarity.NormScaledCounterexample` | mol_networking/similarity.py:70 | two one-peak spectra of mass 100 at precursor 500: msmolnet scores (1, 1), this package raises |
| `MolSimilarity.MolScorePair` | mol_networking/similarity.py:26 | the inner loop body scores with `cosine_score_max` only |
| `MolSimilarity.MolKeptStep` | mol_networking/similarity.py:26-43 | one more visited pair adds a record, adds nothing, or turns the outcome into the pair's exception |
| `MolSimilarity.MolKeptErrPrefix` | mol_networking/similarity.py:19-26 | once a pair has raised, later pairs change nothing: the exception ends `compare_all` |
| `MolSimilarity.MolCompareRow` | mol_networking/similarity.py:21-43 | the inner loop turns the state after the rows before i into the state after row i, or returns an exception some pair raises |
| `MolSimilarity.MolCompareAll` | mol_networking/similarity.py:9-47 | `compare_all` returns the dictionary of the stored records or raises the first pair's exception |
| `MolSimilarity.MolCompareAllOutcome` | mol_networking/similarity.py:9-47 | `compare_all` raises iff some pair i < j passes the gate and has a peak pair in the window; otherwise it returns {} |
| `MatchMaps.StoreFacts` | msmolnet/similarity.py:40-46 | after a store both spectra are keys, the record sits under [a][b] and [b][a], and every other stored pair is unchanged |
| `MatchMaps.StoreKeepsSymmetry` | mol_networking/similarity.py:37-43 | storing into a symmetric dictionary keeps it symmetric |
| `MatchMaps.Put` | msmolnet/use_matchms/convert_matches.py:25-30 | the four statements create the missing inner dictionaries and store the record in both directions |
| `MatchMaps.StoreLookup` | mol_networking/use_matchms/convert_matches.py:21-26 | after a store the pair looks up to the new record, and every other pair to its old one |
| `MatchMaps.StoreAllLookup` | mol_networking/matchms/convert_matches.py:12-17 | starting from {}, [a][b] is the record of the last entry joining a and b, in either orientation |
| `MatchMaps.StoreAllSymmetric` | mol_networking/matchms/convert_matches.py:1-20 | the dictionary built from any list of entries is symmetric |
| `MatchMaps.StoreAllKeys` | mol_networking/similarity.py:37-43 | the outer keys are exactly the endpoints of the stored entries |
| `MatchMaps.StoreAllNoEmpty` | msmolnet/similarity.py:42-46 | no outer key has an empty inner dictionary |
| `Graphs.Graph.constructor` | msmolnet/network.py:10 | `nx.Graph(data)`: the edges are one per pair with the last record given for it, the nodes those the data names in order, no attributes; the graph is valid (nodes once each, one edge per pair, edges between nodes), which every method below keeps |
| `Graphs.Graph.AddNode` | msmolnet/network.py:15 | `add_node` appends a new node once and merges the keyword attributes into its dictionary; edges unchanged |
| `Graphs.Graph.SetNodeAttributes` | msmolnet/network.py:28 | each listed node's dictionary is overwritten key by key with the given one; unlisted nodes keep theirs |
| `Graphs.Graph.RemoveEdge` | msmolnet/network.py:72 | `remove_edge(a, b)` deletes exactly the edge of that pair; nodes unchanged |
| `Graphs.Graph.RemoveEdgesFrom` | msmolnet/network.py:43 | `remove_edges_from` deletes exactly the edges of the listed pairs, ignoring pairs that are not edges |
| `Graphs.IncidentWithout` | msmolnet/network.py:37-43 | removing edges and listing a node's edges commute |
| `Graphs.WithoutAbsent` | mol_networking/network.py:21 | removing only pairs that are not edges leaves the edges as they were |
| `Graphs.ComponentFacts` | msmolnet/network.py:61 | `node_connected_component` contains the node and is closed under edges |
| `Graphs.ComponentLeast` | mol_networking/network.py:33 | the component is contained in every edge-closed set holding the node |
| `Graphs.ComponentMono` | msmolnet/network.py:68-72 | deleting edges never enlarges a component |
| `Graphs.ComponentSame` | mol_networking/network.py:33 | two connected nodes have the same component |
| `Graphs.ConnectedSymmetric` | msmolnet/network.py:76 | `has_path` is symmetric |
| `Graphs.ComponentIsolated` | msmolnet/network.py:61-68 | a node without edges to other nodes is alone in its component |
| `Graphs.RemoveCycleEdge` | msmolnet/network.py:72-77 | deleting an edge whose ends stay connected leaves every component as it was |
| `Graphs.AddNodesFacts` | msmolnet/network.py:14-15 | adding nodes keeps the old list as a prefix, adds exactly the given nodes, and keeps a list without repeats free of repeats |
| `Graphs.EdgesOfLookup` | mol_networking/network.py:5 | the built graph holds one edge per pair, and a pair's record is the last one the data gives for it |
| `Graphs.BuiltNodesMember` | mol_networking/network.py:5 | the built graph's nodes are exactly the given keys and the ends of the data's edges |
| `Graphs.BuiltValid` | msmolnet/network.py:10 | the built graph lists each node once and holds one edge per pair; its nodes are the given keys and the ends of the data's edges, and every edge's ends are nodes |
| `Graphs.AddEdgeWeight` | msmolnet/similarity.py:138-139 | adding an edge stores the record under its pair, replacing an earlier one for the same pair |
| `Network.DictEdges` | msmolnet/network.py:10 | for a symmetric match dictionary, `nx.Graph(matches)` has an edge exactly for each stored pair, carrying its {cosine, peaks} record |
| `Network.DictNodes` | msmolnet/network.py:10 | the graph's nodes are exactly the dictionary's keys |
| `Network.DictNodeOrder` | msmolnet/network.py:10-14 | the keys come first, in dictionary order, and each node is listed once |
| `Network.FlattenEntry` | msmolnet/network.py:10 | every triple `nx.Graph` reads from the dictionary is one of its entries |
| `Network.EntryFlattened` | msmolnet/network.py:10 | every entry of the dictionary is read as a triple |
| `Network.StringifyParameters` | msmolnet/network.py:17-19 | the inner loop stores `str` of every parameter under its own key and nothing else |
| `Network.AddLibraryKeys` | msmolnet/network.py:23-24 | the library loop writes every library parameter, unconverted, under "library_" + its key, overriding what was there |
| `Network.DescribeNode` | msmolnet/network.py:14-26 | one pass adds the node with `library_match` set by whether it has library parameters, and builds its dictionary |
| `Network.MakeNetwork` | msmolnet/network.py:6-30 | the graph of the data, every node added with its flag, then the collected dictionaries set as node attributes; edges are those of the data |
| `Network.FlagsKeys` | msmolnet/network.py:21-26 | only the listed nodes get a flag dictionary, and it holds `library_match` alone |
| `Network.FlagsLast` | msmolnet/network.py:21-26 | a node listed twice keeps the flag of its last occurrence |
| `Network.AttributesKeys` | msmolnet/network.py:13-16 | only the listed nodes get an `attributes` dictionary |
| `Network.AttributesLast` | msmolnet/network.py:16-24 | a node listed twice keeps the dictionary built for its last occurrence |
| `Network.NetworkNodeAttrs` | msmolnet/network.py:14-28 | in the returned graph, a listed node's attributes are its flag overwritten by its last dictionary |
| `Network.NetworkOtherNodes` | msmolnet/network.py:10-28 | nodes only the edge data names get no attributes |
| `Network.LibraryKept` | msmolnet/network.py:23-24 | each library parameter L is stored, unconverted, under "library_" + L |
| `Network.ParametersPrinted` | msmolnet/network.py:17-19 | each other parameter is stored as its `str` under its own name |
| `Network.LibraryMatchFlag` | msmolnet/network.py:21-28 | `library_match` says whether the node has library parameters, unless a parameter of that name shadows it |
| `Network.NodeAttrsKeys` | msmolnet/network.py:17-28 | a node's dictionary holds only its parameters, its prefixed library keys and the flag |
| `MolNetwork.Colouring` | mol_networking/network.py:7-10 | a node with a name is coloured 1 and labelled with it; one without is coloured 0 and has no ID |
| `MolNetwork.MakeColouredNetwork` | mol_networking/network.py:3-12 | `nx.Graph(edges)` of the data (a dictionary's keys first, then the ends of its edges), every given node added after it with its colour attributes merged in; the graph stays valid |
| `MolNetwork.ColoursKeys` | mol_networking/network.py:6-10 | only the given nodes get attributes, and each has a colour and at most an ID |
| `MolNetwork.ColourLast` | mol_networking/network.py:7-10 | a node's colour comes from its last occurrence |
| `MolNetwork.IdentifiedLast` | mol_networking/network.py:7-8 | a node whose last occurrence has a name carries that name as ID |
| `MolNetwork.UnnamedNoId` | mol_networking/network.py:9-10 | a node none of whose occurrences has a name has no ID |
| `MolNetwork.ColouredNetwork` | mol_networking/network.py:3-12 | the returned graph's given nodes are coloured and labelled as above; other nodes carry nothing |
| `Filters.ByCosine` | msmolnet/network.py:40 | the node's edges sorted by descending cosine are a permutation of them in non-increasing cosine order |
| `Filters.FilterNeighbors` | msmolnet/network.py:32-45 | the method leaves the graph's edges as the node-by-node specification computes them, nodes untouched; for M >= 0 every node ends with at most M edges, and the graph stays valid |
| `Filters.NeighborsOnlyRemove` | msmolnet/network.py:37-43 | `filter_neighbors` only removes edges: every edge left was there, with its record |
| `Filters.NeighborStepDegree` | msmolnet/network.py:40-43 | after its own step a node has at most M edges |
| `Filters.NeighborsDegree` | mol_networking/network.py:14-23 | afterwards every visited node has degree at most M |
| `Filters.KeptIff` | msmolnet/network.py:40-43 | an edge of x survives x's step iff it is among the first M of x's edges by descending cosine |
| `Filters.NeighborStepKeepsBest` | msmolnet/network.py:37-43 | a node of degree above M keeps exactly its M highest-cosine edges, ties resolved by adjacency order |
| `Filters.NeighborsFilteredSplit` | msmolnet/network.py:37 | visiting the nodes a + b is visiting a, then b |
| `Filters.NeighborsSmall` | mol_networking/network.py:20-21 | with at most M edges in the graph nothing is removed |
| `Filters.EdgesOfUnique` | msmolnet/network.py:10 | data with one triple per pair builds exactly those edges, in order |
| `Filters.StarFiltered` | msmolnet/network.py:32-45 | on a star with six spokes, three of which score higher, M = 3 keeps exactly those three, in order |
| `Filters.StarFixture` | msmolnet/tests/test_filter_neighbors.py:7-19 | node 1 keeps its edges to 3, 4 and 5, in adjacency order |
| `Families.ShrinkWithin` | msmolnet/network.py:66-77 | the inner loop only deletes edges |
| `Families.ShrinkShorter` | msmolnet/network.py:68-72 | a successful inner loop deletes at least one edge |
| `Families.ShrinkTrace` | msmolnet/network.py:66-77 | the inner loop deletes a suffix of the sorted list; the last deletion separates its ends and the earlier ones keep every component |
| `Families.ShrinkLowest` | msmolnet/network.py:65-72 | the deleted edges score no higher than every edge left in the sorted list |
| `Families.ShrinkOk` | msmolnet/network.py:66-77 | on a family of at least two nodes whose sorted list names every edge of it that is not a self-loop, the inner loop never runs out of edges |
| `Families.ShrinkError` | msmolnet/network.py:68 | the only exception the inner loop raises is the IndexError of `edges[-1]` |
| `Families.ShrinkKeeps` | mol_networking/network.py:40-50 | the inner loop keeps every edge outside the family |
| `Families.FamilyEdgesMember` | msmolnet/network.py:65 | the sorted list holds exactly the edges touching the family |
| `Families.SettleWithin` | msmolnet/network.py:60-79 | settling a node only deletes edges |
| `Families.SettleSmall` | msmolnet/network.py:60-63 | a settled node's family has at most M nodes |
| `Families.SettleOk` | msmolnet/network.py:60-79 | with M >= 1 settling a node always succeeds |
| `Families.SettleOutcome` | msmolnet/network.py:63-68 | settling succeeds iff M >= 1; with M < 1 a lone node is a family above M and `edges[-1]` raises IndexError |
| `Families.SettleError` | mol_networking/network.py:37-41 | the only exception settling a node raises is IndexError |
| `Families.SettleKeeps` | mol_networking/network.py:32-50 | settling a node keeps every edge outside its family |
| `Families.PassErrStays` | msmolnet/network.py:54-79 | once a node raises, the whole loop raises |
| `Families.FamilyError` | msmolnet/network.py:47-85 | `filter_family` raises IndexError iff M < 1 and the graph has a node |
| `Families.PassStep` | msmolnet/network.py:57-82 | settling a node keeps the finished families closed and small, now with the node's family among them |
| `Families.PassFacts` | msmolnet/network.py:53-83 | after the loop edges were only deleted, every visited node lies in a finished family, and finished families are closed and at most M |
| `Families.FamilySmall` | mol_networking/network.py:25-58 | afterwards every node's connected component has at most M nodes |
| `Families.PassStepKeeps` | mol_networking/network.py:28-55 | visiting a node outside the finished families keeps every edge touching them |
| `Families.FinishedKept` | msmolnet/network.py:54-83 | the families finished after the first k nodes stay finished, and every edge touching them is still there at the end |
| `Families.FinishedFamilies` | msmolnet/network.py:53-83 | the families finished after any prefix of nodes are, at the end, the components they were |
| `Families.PassWithin` | msmolnet/network.py:54-83 | the final edges are among the edges after any prefix of the loop |
| `Families.ShrinkFamily` | msmolnet/network.py:66-77 | the inner `while True` leaves the graph as the shrink specification says, or reports its IndexError |
| `Families.SettleNode` | msmolnet/network.py:60-83 | the outer loop for one node leaves the graph as the settle specification says |
| `Families.FilterFamily` | msmolnet/network.py:47-85 | `filter_family` leaves the graph's edges as the whole-pass specification says, or raises its error; nodes unchanged; on success every node's component has at most M nodes |
| `Families.FamilyCase` | msmolnet/tests/test_filter_family.py:7-15 | on the test's seven-node graph with M = 3, two cuts at node 1, then every family is small |
| `Families.FamilyFixture` | msmolnet/tests/test_filter_family.py:15-19 | the component of node 2 is {1, 2, 3} |
| `Converters.ConvertScores` | msmolnet/use_matchms/convert_matches.py:8-33 | returns the dictionary of the stored records, or the KeyError of the first spectrum without 'scans' |
| `Converters.ScoreErrKept` | msmolnet/use_matchms/convert_matches.py:13-22 | once a tuple has raised, the whole loop has |
| `Converters.ConvertEmpty` | msmolnet/use_matchms/convert_matches.py:12-33 | no scores give {} |
| `Converters.ConvertRaises` | mol_networking/matchms/convert_matches.py:3-10 | the loop raises iff some tuple other than a self score has a spectrum without 'scans' |
| `Converters.SelfScoreSkipped` | mol_networking/use_matchms/convert_matches.py:11-12 | a self score contributes nothing, even when its spectrum lacks 'scans' |
| `Converters.LaterTupleWins` | msmolnet/use_matchms/convert_matches.py:25-30 | a later tuple for a pair overwrites its record in both directions and leaves other pairs alone |
| `Converters.ConvertSymmetric` | mol_networking/use_matchms/convert_matches.py:21-26 | the returned dictionary is symmetric and holds the last record stored for each pair |
| `Converters.PeaksOf` | msmolnet/use_matchms/convert_matches.py:45-46 | the peaks pair the two arrays element by element, in order |
| `Converters.ParametersOf` | msmolnet/use_matchms/convert_matches.py:53-55 | a tuple-valued 'pepmass' is replaced by its first element; every other key is unchanged |
| `Converters.ConvertSpectrum` | msmolnet/use_matchms/convert_matches.py:36-58 | a fresh spectrum with the peaks in order, the untupled metadata, the library parameters when present, and the id `set_id` derives |
| `Converters.ConvertFixture` | msmolnet/tests/test_convert_matchms.py:8-17 | the test spectrum gives first peak (100, 0.7) and id '1' |
| `SimilarityCalc.Spectrum.constructor` | similarity_calc.py:17-19 | a new prototype spectrum has no peaks and no feature id |
| `SimilarityCalc.Spectrum.AddPeak` | similarity_calc.py:24-25 | one unscaled peak is appended and nothing else changes |
| `SimilarityCalc.Spectrum.SetPeakId` | similarity_calc.py:27-28 | the feature id becomes the given value |
| `SimilarityCalc.CosineScore` | similarity_calc.py:106-148 | the method returns the greedy total of the candidates shifted by the given modification |
| `SimilarityCalc.CalcScoreIsUngatedGreedy` | similarity_calc.py:106-148 | the prototype is msmolnet's greedy score without the gate: wherever the gate passes the totals agree |
| `SimilarityCalc.CalcScoreMeaning` | similarity_calc.py:131-148 | the total is 0 when no peak pair is within tolerance, and never above a maximum-weight matching of the same candidates |
| `SimilarityCalc.MainPairs` | similarity_calc.py:158-184 | the loops of `main` list, in loop order, a tuple for every ordered pair within 400 of each other |
| `SimilarityCalc.MainRow` | similarity_calc.py:172-182 | the inner loop adds the tuples of row i |
| `SimilarityCalc.MainCell` | similarity_calc.py:173-182 | one iteration adds the pair's tuple exactly when it passes the window |
| `SimilarityCalc.ScorePair` | similarity_calc.py:179-180 | the tuple holds both ids and the prototype score with the precursor difference as the modification |
| `SimilarityCalc.ScoredPairsExact` | similarity_calc.py:171-176 | exactly the ordered pairs that pass the window are scored |
| `SimilarityCalc.MainPairsIncluded` | similarity_calc.py:169-176 | every spectrum is scored against itself; a difference of exactly 400 passes and one above it does not |
| `SimilarityCalc.SelfRecord` | similarity_calc.py:173-180 | a spectrum's tuple against itself carries the score with modification 0 |
| `SimilarityCalc.ScoredPairsCount` | similarity_calc.py:171-182 | when every difference is within the window, all n * n ordered pairs are scored |
| `DataClasses.ComparePeaks` | DataClasses.py:11-15 | `compare_peaks`: the first mass lies in the closed interval of the tolerance around the second |
| `DataClasses.ComparePeaksDistance` | DataClasses.py:11-15 | `compare_peaks` holds iff the two masses are at most the tolerance apart |
| `DataClasses.ComparePeaksSymmetric` | DataClasses.py:11-15 | the peak comparison is symmetric |
| `DataClasses.ComparePeaksIsFragmentWindow` | DataClasses.py:11-15 | it is the unshifted fragment window of the package scorers |
| `DataClasses.PrecursorWithin` | DataClasses.py:30-35 | the open window of `compare_precursor_mass` on the precursor difference |
| `DataClasses.PrecursorWithinDistance` | DataClasses.py:32 | the precursor test holds iff the difference is strictly below the threshold |
| `DataClasses.PrecursorWithinSymmetric` | DataClasses.py:30-35 | the precursor test is symmetric |
| `DataClasses.PrecursorWithinOpen` | DataClasses.py:32 | a difference of exactly the threshold is rejected, in either direction |
| `DataClasses.PrecursorWithinGate` | DataClasses.py:32 | the prototype window lies strictly inside the packages' closed gate |
| `DataClasses.Spectrum.constructor` | DataClasses.py:18-19 | a new data-class spectrum has no peaks, no id and no precursor mass |
| `DataClasses.Spectrum.AddPeak` | DataClasses.py:24-25 | one peak is appended and nothing else changes |
| `DataClasses.Spectrum.SetPeakId` | DataClasses.py:27-28 | the id becomes the given value |
| `DataClasses.Spectrum.ComparePrecursorMass` | DataClasses.py:30-35 | AttributeError when either spectrum has no precursor mass, otherwise the open precursor test |
| `DataClasses.ComparePrecursorMassSymmetric` | DataClasses.py:30-35 | the comparison does not depend on which spectrum it is called on |
| `CosineTests.GreedyCandidates` | msmolnet/tests/test_cosine.py:106-125 | the max_v_greedy peaks give exactly four candidates, with products 0.28, 0.42, 0.30 and 0.15 |
| `CosineTests.GreedyKept` | msmolnet/tests/test_cosine.py:127-130 | greedy keeps the 0.42 and the 0.15 pair |
| `CosineTests.GreedyFixture` | msmolnet/tests/test_cosine.py:127-136 | greedy scores (0.57, 2) |
| `CosineTests.MaxTotal` | msmolnet/tests/test_cosine.py:126-133 | no matching of the four candidates totals more than 0.73, and one of 0.73 has three pairs |
| `CosineTests.MaxReached` | msmolnet/tests/test_cosine.py:126 | the 0.28, 0.30 and 0.15 pairs form a matching of total 0.73 |
| `CosineTests.MaxVersusGreedyFixture` | msmolnet/tests/test_cosine.py:106-136 | max scores (0.73, 3) and greedy (0.57, 2): the maximum-weight matching beats greedy |
| `CosineTests.NoMatchCandidates` | msmolnet/tests/test_cosine.py:74-95 | the no_match peaks give no candidate |
| `CosineTests.NoMatchFixture` | msmolnet/tests/test_cosine.py:74-104 | both scorers give (0, 0) |

## Left out

- The MGF readers (`similarity_calc.py:46-103`, the package readers) and the matchms loaders read files; they are not modelled. Spectra are built by the modelled `add_peak`, `set_id` and converter calls.
- `write_graphml` of both packages (`msmolnet/network.py:87-89`, `mol_networking/network.py:60-61`) writes a file; it is not modelled.
- `library_match` of both packages (`msmolnet/similarity.py:177`, `mol_networking/similarity.py:186`) reads a library file; it is not modelled.
- `euclidean_scale` of the three spectrum classes takes square roots and numpy norms of floats. The scaled intensities enter the model as data on each peak, and the scorers require every peak to carry one.
- `max_weight_matching` (the blossom algorithm of networkx) is abstracted as the parameter `matcher`. The lemmas that depend on optimality require `IsMaxWeightMatching`.
- `similarity_calc.py:151-155` (`filter_pairs` of the prototype) only sorts a list and is unfinished; it is not modelled.
- The `print` in `DataClasses.py:31` is output only and is not modelled.
- The `mol_networking` MS1 analysis script is not part of this model.
- Floating-point rounding is not modelled: masses, intensities and scores are exact reals.
- networkx lists `graph.edges(family)` in its own adjacency order. The model lists each family's edges in the graph's edge order, so ties between equal cosines may be ordered differently.
- Peaks are compared by object identity in the greedy loop (`not in used_peaks`). The model compares peak positions, which is the same thing for lists without repeated peak objects.
- `used`, the list of finished nodes in `filter_family`, is modelled as a set. Only membership is ever asked of it.
- The matchms metadata dictionary is shared by reference with the new spectrum in `convert_spectrum`. The model copies it, so aliasing between the two objects is not modelled.
- `Families.FilterFamily`: when an IndexError escapes, the model reports the error without stating the partial deletions the source has already made to the graph.
- `Similarity.FilterPairs`: the in-place overwrite of the argument is returned as a second value, not written through a shared dictionary.
- `Similarity.CompareAllContents`: stated for lists without repeated spectrum objects. With a repeat, later pairs overwrite earlier ones in the order `Similarity.CompareAll` states, but the record of a pair that is one object twice is only right for the greedy scorer (see the next line).
- `Similarity.CosineScoreMax`: the nodes of the graph B are kept per side (peak i of the first spectrum, peak j of the second). When one spectrum object is scored against itself, or two spectra share Peak objects, the source's B merges the shared peaks into one node, so a peak paired with itself becomes a self-loop and the summing loop counts a matched edge in both orientations. That case is not modelled: for one spectrum with peaks 100.0 (scaled 0.6) and 100.1 (scaled 0.8) and tolerance 0.3 the source returns (0.96, 1), while the model returns (1.0, 2). `Similarity.MaxScoreAtLeastGreedy` holds only for the modelled case.
- `Spectra.Spectrum.Lt`: defined only when both spectra have a precursor mass. The source raises AttributeError otherwise, and that case is not modelled.
- `Similarity.CosineScoreGreedy` and `Similarity.CosineScoreMax` require both spectra to have a precursor mass and scaled peaks. The source raises AttributeError otherwise, and that case is not modelled.
- `Filters.NeighborsDegree`: stated for M >= 0 and graphs with one edge per pair. With a negative M, Python's `edges[M:]` removes only the last -M edges, so no degree bound holds; `Filters.FilterNeighbors` covers every M.
- The two fixtures `same_spectrum` and `all_match` of `msmolnet/tests/test_cosine.py:10-72` are not modelled. Their expected scores are sums of square roots of normalised intensities.
- `CosineTests.MaxVersusGreedyFixture`: the last peak of each test spectrum has an irrational scaled intensity. It enters as a parameter, and only the pairs with exact rational products are stated.
- The filter fixtures give no peak counts; 0 stands in for each edge's `peaks` value.
- `Spectra.Spectrum.AddPeak`: `Peak.__init__` takes `math.sqrt` of the intensity (`msmolnet/Peak.py:19`, `similarity_calc.py:10`, `DataClasses.py:6`), which raises ValueError for a negative intensity. That error is not modelled; any intensity is accepted, here and in `SimilarityCalc.Spectrum.AddPeak` and `DataClasses.Spectrum.AddPeak`.
- The graph methods require and keep `Graphs.Graph.Valid` (nodes once each, one edge per pair, edges between nodes). Every networkx graph satisfies it, and every model graph starts valid from `Graphs.Graph.constructor`.

## Findings

| source | as written | input that shows it | evidently intended | confidence | as-written member | corrected member |
|---|---|---|---|---|---|---|
| mol_networking/similarity.py:70 | the candidate product reads `peak.norm_scaled`, which `mol_networking/Spectrum.py:27-40` never sets (it sets `scaled_intensity`), so any pair inside the window raises AttributeError and no match is ever reported | one peak of mass 100 in each spectrum, both precursor masses 500 | the product of the two `scaled_intensity` values, as `msmolnet/similarity.py:70` computes | not executed | `MolSimilarity.NormScaledCounterexample` | `Similarity.CosineScoreGreedy` |
