# Atlas halo growth, in Dafny

This project models the halo-building machinery of the Atlas mesh library
(`BuildHalo`) and proves properties of the model.

A partition's mesh is a list of nodes and a list of cell blocks, one block per
element type. Cells and nodes of different partitions are matched by unique
identifiers (UIDs) computed from coordinates. One halo level grows the mesh in
three passes: the interior pass, then the West periodic pass, then the East
periodic pass. Each pass runs these steps:

- It finds the partition-boundary nodes and sends their UIDs to every partition.
- It resolves each partition's request into the locally owned elements that
  touch the requested nodes, plus the UIDs of the extra nodes those elements need.
- It packs those nodes and elements into a per-destination buffer. Element
  connectivity is shipped as a ragged array with a displacement table.
- It merges what it receives. A received node or element is appended only
  when its key is neither in a sorted snapshot of the existing keys nor seen
  earlier in the same pass. Shipped node UIDs are then mapped back to local
  node indices.

After all levels are built, the provisional global indices of the periodic
ghost nodes and cells are renumbered. The gathered indices are sorted and given
dense labels that start above the stored maximum. Equal indices share a label.

The model is a single-partition state transformer:

- What the other partitions send is given data. A gather or scatter is
  concatenation or splitting of sequences.
- The UID is an abstract function of a point (or of a cell's points).
- The facet tables that drive boundary detection are given data.

The project also models five smaller parts of Atlas:

- The `Structured` grid: point counting, hemisphere mirroring, and filling a
  lon/lat buffer.
- The `EdgeColumns` function space: field size and shape rules, field metadata,
  the constructor's halo check, and the Fortran-order helper.
- The `NablaFactory` registry: register, unregister, has, list and build.
- The position iterators of an `Unstructured` grid.
- The edges and edge sets of a partition `Polygon`.

Layout:

- `wrappers.dfy`: `Option`, `Result` and `Outcome`.
- `ordered_seq.dfy`: sorted sequences, `std::set` iteration order and `lower_bound`.
- `halo_mesh.dfy`: nodes, cells, type blocks, topology flags and the mesh object.
- `halo_lookup.dfy`: node→element and UID→node tables, boundary nodes,
  periodic point filters and `accumulate_elements`.
- `halo_buffers.dfy`: `fill_sendbuffer` (plain and periodic).
- `halo_answer.dfy`: answering one request, or every partition's request.
- `halo_select.dfy`: deduplication against a snapshot plus the keys seen in the pass.
- `halo_merge.dfy`: `add_nodes`, `add_elements`, `add_buffers` and the helper object.
- `halo_passes.dfy`: lookups, boundary, and the interior and periodic passes.
- `halo_renumber.dfy`: sort-and-label renumbering and gather/scatter displacements.
- `renumber_fields.dfy`: writing the labels back into nodes and cells.
- `periodic_cells.dfy`: how periodic ghost cells are recorded (see Findings).
- `build_halo.dfy`: `BuildHalo::operator()`, the level loop and the renumbering calls.
- `structured_grid.dfy`, `edge_columns.dfy`, `nabla_registry.dfy`,
  `unstructured_iterators.dfy`, `polygon.dfy`: the smaller parts.

## Model

| member | source | states |
|---|---|---|
| OrderedSeq.MinimumExists | src/atlas/mesh/actions/BuildHalo.cc:343 | every non-empty finite set of integers has a least element |
| OrderedSeq.Least | src/atlas/mesh/actions/BuildHalo.cc:343 | the least element belongs to the set and is below all of its members |
| OrderedSeq.SortedOf | src/atlas/mesh/actions/BuildHalo.cc:343 | a set's iteration order is strictly increasing and holds exactly the set's elements |
| OrderedSeq.SortedUnique | src/atlas/mesh/actions/BuildHalo.cc:343 | two strictly increasing sequences with the same elements are equal, so a set has one iteration order |
| OrderedSeq.SortedFromSet | src/atlas/mesh/actions/BuildHalo.cc:343 | turning a set into a vector gives its elements in strictly increasing order, each once, with the set's size as length |
| OrderedSeq.LowerBound | src/atlas/mesh/actions/BuildHalo.cc:774 | `lower_bound` on a sorted vector: every entry before the result is below the key, and every entry from it on is at least the key |
| OrderedSeq.SnapshotContains | src/atlas/mesh/actions/BuildHalo.cc:774-775 | the `lower_bound` test finds a key exactly when the sorted snapshot contains it |
| HaloMesh.Flatten | src/atlas/mesh/actions/BuildHalo.cc:1243-1249 | the flat cell view has as many cells as all type blocks together |
| HaloMesh.TypeIndices | src/atlas/mesh/actions/BuildHalo.cc:653 | each flat cell has a type, and the type is a valid block index |
| HaloMesh.FlattenedRows | src/atlas/mesh/actions/BuildHalo.cc:653 | flat cell e is a cell of the block its type names, with that block's width |
| HaloMesh.FlattenRowsInRange | src/atlas/mesh/actions/BuildHalo.cc:302-309 | if every block's rows name existing nodes, so does every row of the flat view |
| HaloMesh.Mesh.Cells | src/atlas/mesh/actions/BuildHalo.cc:1243-1249 | the mesh's flat cell view counts every cell of every block |
| HaloMesh.Mesh.constructor | src/atlas/mesh/actions/BuildHalo.cc:1205-1206 | a mesh holds the given nodes, blocks and halo, with no stored node counts or maxima and neither field human-readable |
| HaloLookup.CountPositive | src/atlas/mesh/actions/BuildHalo.cc:302-309 | a node occurs in a connectivity row exactly when its count there is positive |
| HaloLookup.Node2ElemMembership | src/atlas/mesh/actions/BuildHalo.cc:292-309 | element e is in node n's list exactly when e exists, is not patched, and n is in e's row |
| HaloLookup.Node2ElemBounded | src/atlas/mesh/actions/BuildHalo.cc:292-309 | every listed element index is a valid element |
| HaloLookup.Node2ElemOrdered | src/atlas/mesh/actions/BuildHalo.cc:292-309 | each node's list is in increasing element order |
| HaloLookup.BuildNode2Elem | src/atlas/mesh/actions/BuildHalo.cc:284-310 | the built table has one list per node, each equal to the specified list |
| HaloLookup.FirstIndexIsFirst | src/atlas/mesh/actions/BuildHalo.cc:415-426 | the UID map holds exactly the UIDs that occur, each mapped to the first node that produced it |
| HaloLookup.ConflictsIffNotDistinct | src/atlas/mesh/actions/BuildHalo.cc:419-427 | no conflict is reported exactly when all node UIDs are distinct |
| HaloLookup.BuildUid2Node | src/atlas/mesh/actions/BuildHalo.cc:404-428 | succeeds exactly when the UIDs are distinct, giving the first-index map; otherwise fails with every conflict listed |
| HaloLookup.BoundaryNodesInRange | src/atlas/mesh/actions/BuildHalo.cc:335-342 | on valid facet tables, every boundary node is an existing node |
| HaloLookup.AccumulatePartitionBdryNodes | src/atlas/mesh/actions/BuildHalo.cc:312-344 | the result is strictly increasing and holds exactly the two nodes of every facet whose second adjacent element is missing |
| HaloLookup.PeriodicPointsBelowCount | src/atlas/mesh/actions/BuildHalo.cc:1106-1110 | a point is accepted exactly when its index is below the count taken before the level and its flags carry the requested bits |
| HaloLookup.FilterNodes | src/atlas/mesh/actions/BuildHalo.cc:363-370 | keeps exactly the accepted nodes, never grows the list, and keeps a strictly increasing list strictly increasing |
| HaloLookup.AcceptedPositions | src/atlas/mesh/actions/BuildHalo.cc:363-370 | the positions of the accepted nodes: every one of them, once, in increasing order |
| HaloLookup.FilterNodesStable | src/atlas/mesh/actions/BuildHalo.cc:363-370 | `filter_nodes` is a stable copy-if: entry i of the result is the node at the i-th accepted position |
| HaloLookup.FoundSetMembership | src/atlas/mesh/actions/BuildHalo.cc:440-458 | an element is found exactly when it is owned by this partition and touches a requested UID known locally |
| HaloLookup.OwnedElemsOf | src/atlas/mesh/actions/BuildHalo.cc:446-455 | the elements of a list that exist and belong to this partition |
| HaloLookup.CollectFound | src/atlas/mesh/actions/BuildHalo.cc:442-458 | the loop collects exactly the found set, and every found element is owned |
| HaloLookup.CollectNodeUids | src/atlas/mesh/actions/BuildHalo.cc:463-471 | the loop collects exactly the UIDs of the found elements' nodes |
| HaloLookup.AccumulateElements | src/atlas/mesh/actions/BuildHalo.cc:430-477 | found elements are sorted, unique and exactly the owned elements touching known requested UIDs; new node UIDs are their node UIDs minus the requested ones |
| HaloLookup.RemoveRequested | src/atlas/mesh/actions/BuildHalo.cc:474-476 | erasing the requested UIDs leaves the collected set minus the request |
| HaloBuffers.ElemNodeIds | src/atlas/mesh/actions/BuildHalo.cc:660-681 | the shipped element-node array is as long as the total width of the shipped elements |
| HaloBuffers.OffsetMonotone | src/atlas/mesh/actions/BuildHalo.cc:664-672 | element j's displacement plus its width stays within the total |
| HaloBuffers.RaggedAccess | src/atlas/mesh/actions/BuildHalo.cc:664-681 | entry n of element j sits at its displacement plus n and is the UID of that node's point |
| HaloBuffers.SentBufferWellFormed | src/atlas/mesh/actions/BuildHalo.cc:624-682 | a packed buffer is well formed: each element's type is valid and its ids match its type's width |
| HaloBuffers.ShipNodes | src/atlas/mesh/actions/BuildHalo.cc:628-656 | fails exactly when a requested UID is missing from the UID map; otherwise ships one record per UID, in order, each the local node with GHOST added or, when periodic, moved back, re-identified and given the pass's flags (`ShippedNode`) |
| HaloBuffers.ShipElems | src/atlas/mesh/actions/BuildHalo.cc:660-750 | ships one record per element, in order (`ShippedElem`: partition, type and displacement, with the global index replaced by minus the UID of the moved-back nodes when periodic), with the ragged node array |
| HaloBuffers.FillSendBuffer | src/atlas/mesh/actions/BuildHalo.cc:624-752 | fails exactly on a requested UID missing from the UID map (the assertion); otherwise gives the specified buffer (`SendBuffer`), plain or periodic |
| HaloSelect.Picked | src/atlas/mesh/actions/BuildHalo.cc:773-797 | the picked positions are increasing and their keys are absent from the snapshot |
| HaloSelect.PickedDistinct | src/atlas/mesh/actions/BuildHalo.cc:773-783 | no two picked keys are equal, thanks to the in-pass seen set |
| HaloSelect.PickedComplete | src/atlas/mesh/actions/BuildHalo.cc:773-797 | every received key absent from the snapshot is picked at least once |
| HaloSelect.PickedKeysExactlyNew | src/atlas/mesh/actions/BuildHalo.cc:773-797 | the picked keys are exactly the received keys not in the snapshot, each once |
| HaloSelect.SelectNew | src/atlas/mesh/actions/BuildHalo.cc:790-797 | the selection loop over a sorted snapshot picks exactly the specified positions |
| HaloAnswer.FoundElems | src/atlas/mesh/actions/BuildHalo.cc:1078-1082 | the found elements of a request are valid element indices |
| HaloAnswer.ElemNodeUidsWithin | src/atlas/mesh/actions/BuildHalo.cc:463-471 | the node UIDs of found elements are UIDs of local nodes |
| HaloAnswer.AnswerComplete | src/atlas/mesh/actions/BuildHalo.cc:1081-1085 | when every local node's UID is in the map, every request can be answered |
| HaloAnswer.Answer | src/atlas/mesh/actions/BuildHalo.cc:1076-1085 | answering succeeds exactly when the request is answerable, giving the specified reply |
| HaloAnswer.AnswerAll | src/atlas/mesh/actions/BuildHalo.cc:1064-1086 | answering every partition succeeds exactly when all requests are answerable, one reply per partition |
| HaloMerge.NodeSnapshot | src/atlas/mesh/actions/BuildHalo.cc:764-772 | the node snapshot is sorted and holds exactly the existing node UIDs |
| HaloMerge.NewNodeRow | src/atlas/mesh/actions/BuildHalo.cc:817-828 | an appended node copies the shipped fields, and its ghost value is the GHOST bit of its flags |
| HaloMerge.PartElems | src/atlas/mesh/actions/BuildHalo.cc:892-899 | one incoming element per shipped element, each with a valid type and a matching width |
| HaloMerge.RecvElems | src/atlas/mesh/actions/BuildHalo.cc:892-899 | every incoming element has a valid type and ids of its type's width |
| HaloMerge.ElemSnapshot | src/atlas/mesh/actions/BuildHalo.cc:861-870 | the element snapshot is sorted and holds exactly the negated cell UIDs and the cell global indices |
| HaloMerge.ZeroExtendedReadsSame | src/atlas/mesh/actions/BuildHalo.cc:940-941 | a map grown only by default entries reads the same through `operator[]` |
| HaloMerge.ZeroExtendedTrans | src/atlas/mesh/actions/BuildHalo.cc:940-941 | two such growths compose into one |
| HaloMerge.ConnectRow | src/atlas/mesh/actions/BuildHalo.cc:939-941 | each connectivity entry is the map's node for the shipped UID (0 when missing), and the map only gains default entries |
| HaloMerge.MakeCell | src/atlas/mesh/actions/BuildHalo.cc:933-941 | an appended cell has the absolute shipped global index, the shipped partition, halo + 1, patch 0 and the remapped row |
| HaloMerge.OfType | src/atlas/mesh/actions/BuildHalo.cc:905-911 | the positions of one type are picked positions whose element has that type |
| HaloMerge.ByType | src/atlas/mesh/actions/BuildHalo.cc:901-911 | one group per type, and every member of group t has type t |
| HaloMerge.GrownBlocks | src/atlas/mesh/actions/BuildHalo.cc:913-948 | growing keeps the number of blocks and every block's width |
| HaloMerge.GrownBlocksValid | src/atlas/mesh/actions/BuildHalo.cc:913-948 | grown blocks keep rows of the right width that name existing nodes |
| HaloMerge.NewCellsSameReads | src/atlas/mesh/actions/BuildHalo.cc:940-941 | new cells do not change when the map only gains default entries |
| HaloMerge.GroupByType | src/atlas/mesh/actions/BuildHalo.cc:901-911 | the grouping loop gives each type exactly its picked positions, in order |
| HaloMerge.AppendOfType | src/atlas/mesh/actions/BuildHalo.cc:930-947 | the append loop for one type adds exactly its new cells after the old ones |
| HaloMerge.PrefixStep | src/atlas/mesh/actions/BuildHalo.cc:814-849 | extending the picked prefix by one adds its key and its new node |
| HaloMerge.AppendNewNodes | src/atlas/mesh/actions/BuildHalo.cc:814-849 | passes exactly when no picked UID is already mapped; then it appends the new nodes, maps each new UID to its new index, keeps old entries, and records periodic points |
| HaloMerge.MergeNodes | src/atlas/mesh/actions/BuildHalo.cc:754-850 | `add_nodes`: appends exactly the received nodes whose UID is new, in partition-then-buffer order, and leaves existing nodes and map entries unchanged |
| HaloMerge.GrownBlocksByType | src/atlas/mesh/actions/BuildHalo.cc:913-948 | appending each type's new cells gives the specified grown blocks |
| HaloMerge.PeriodicCellsByType | src/atlas/mesh/actions/BuildHalo.cc:943 | recording each type's new positions gives the specified periodic cells |
| HaloMerge.GrowBlock | src/atlas/mesh/actions/BuildHalo.cc:921-947 | one block grows by exactly its new cells |
| HaloMerge.AddAllTypes | src/atlas/mesh/actions/BuildHalo.cc:913-948 | every block grows by its type's new cells, and every periodic list by their local positions |
| HaloMerge.MergeElements | src/atlas/mesh/actions/BuildHalo.cc:852-949 | `add_elements`: blocks become the specified grown blocks and stay valid; the map only gains default entries; periodic cells are recorded |
| HaloMerge.GrownBlocksAppend | src/atlas/mesh/actions/BuildHalo.cc:913-948 | growth only appends: old cells are unchanged, and new cells have halo + 1 and patch 0 |
| HaloMerge.HaloHelper.constructor | src/atlas/mesh/actions/BuildHalo.cc:589-606 | the helper starts with the mesh's stored halo (0 when absent) and empty tables |
| HaloMerge.HaloHelper.AddNodes | src/atlas/mesh/actions/BuildHalo.cc:754-850 | the helper's nodes and UID map change as `add_nodes` specifies, and nothing else changes |
| HaloMerge.HaloHelper.AddElements | src/atlas/mesh/actions/BuildHalo.cc:852-949 | the helper's blocks, map and periodic cells change as `add_elements` specifies |
| HaloMerge.HaloHelper.AddBuffers | src/atlas/mesh/actions/BuildHalo.cc:951-955 | the mesh becomes the merge of the received buffers (`PassMerged`: the nodes whose UID is new appended, then every block grown by its new cells, with the UID map from before the merge); blocks are only appended to; the periodic records grow by exactly what was appended when the pass is periodic |
| HaloRenumber.EntityLessStrictWeak | src/atlas/mesh/actions/BuildHalo.cc:59-67 | `Entity::operator<` is a strict weak order whose ties are exactly equal global indices |
| HaloRenumber.InsertByG | src/atlas/mesh/actions/BuildHalo.cc:151 | inserting keeps the sequence sorted and adds exactly one entity |
| HaloRenumber.SortByG | src/atlas/mesh/actions/BuildHalo.cc:151 | sorting gives a sorted permutation |
| HaloRenumber.SortedIsPermutation | src/atlas/mesh/actions/BuildHalo.cc:151 | any sorted permutation of the entities covers every position once |
| HaloRenumber.RankFirst | src/atlas/mesh/actions/BuildHalo.cc:155 | the first sorted entity has rank 0 |
| HaloRenumber.RankStep | src/atlas/mesh/actions/BuildHalo.cc:156-158 | along the sorted order the rank stays on a tie and goes up by exactly one on a change |
| HaloRenumber.AssignLabels | src/atlas/mesh/actions/BuildHalo.cc:154-160 | the labelling loop over any sorted permutation gives the specified labels |
| HaloRenumber.Relabel | src/atlas/mesh/actions/BuildHalo.cc:147-160 | sorting and labelling give the specified labels |
| HaloRenumber.RankMonotone | src/atlas/mesh/actions/BuildHalo.cc:156-158 | a larger index never has a smaller rank |
| HaloRenumber.RankStrict | src/atlas/mesh/actions/BuildHalo.cc:156-158 | a gathered index has a smaller rank than any larger index |
| HaloRenumber.HumanReadableOrder | src/atlas/mesh/actions/BuildHalo.cc:147-160 | labels keep the order of the indices and their ties, and fall in max+1 .. max+#distinct |
| HaloRenumber.HumanReadableDense | src/atlas/mesh/actions/BuildHalo.cc:156-158 | consecutive distinct indices get consecutive labels |
| HaloRenumber.HumanReadableStart | src/atlas/mesh/actions/BuildHalo.cc:155 | the smallest index gets max + 1 |
| HaloRenumber.RecvDispls | src/atlas/mesh/actions/BuildHalo.cc:135-138 | displacement p is the total count of the partitions before p |
| HaloRenumber.ConcatSlice | src/atlas/mesh/actions/BuildHalo.cc:135-138 | partition p's part sits at its displacement in the gathered sequence |
| HaloRenumber.GatherRelabelScatter | src/atlas/mesh/actions/BuildHalo.cc:103-168 | each own index gets max + 1 + its rank among all gathered indices |
| HaloRenumber.OwnLabelsKeepOrder | src/atlas/mesh/actions/BuildHalo.cc:147-168 | this partition's labels keep the order and ties of its indices |
| HaloPasses.PeriodicBdry | src/atlas/mesh/actions/BuildHalo.cc:1146 | keeps exactly the boundary nodes the periodic filter accepts |
| HaloPasses.ReplyWellFormed | src/atlas/mesh/actions/BuildHalo.cc:1081-1085 | a reply built from valid blocks is a well-formed buffer |
| HaloPasses.ExchangeAndMerge | src/atlas/mesh/actions/BuildHalo.cc:1064-1095 | fails with UidNotFound exactly when some request cannot be answered; otherwise the received buffers are the other partitions' buffers with this partition's own reply in its slot, and the mesh becomes their merge (`PassMerged`) |
| HaloPasses.BuildLookups | src/atlas/mesh/actions/BuildHalo.cc:1039-1042 | builds the tables that were asked for; the UID map fails exactly on duplicate UIDs |
| HaloPasses.FindBoundary | src/atlas/mesh/actions/BuildHalo.cc:1050 | the boundary nodes become the sorted boundary-node set |
| HaloPasses.IncreaseHaloInterior | src/atlas/mesh/actions/BuildHalo.cc:1038-1096 | the interior pass: tables built when empty, failing exactly on duplicate UIDs; the boundary nodes' UIDs sent; every request answered; the mesh becomes the merge of the received buffers; no periodic entity recorded |
| HaloPasses.IncreaseHaloPeriodic | src/atlas/mesh/actions/BuildHalo.cc:1127-1200 | the periodic pass: tables rebuilt, failing exactly on duplicate UIDs; only the accepted boundary points sent, with transformed UIDs; replies shipped with the backward transform and new flags; the mesh becomes the merge of the received buffers; every appended node and cell recorded as periodic |
| PeriodicCells.RecordFlatAsWritten | src/atlas/mesh/actions/BuildHalo.cc:1243-1249 | the recording loop gives the flat indices c + p, with c the size of the earlier blocks |
| PeriodicCells.FlattenAt | src/atlas/mesh/actions/BuildHalo.cc:1243-1249 | the flat index of cell k of type t is the earlier blocks' size plus k |
| PeriodicCells.TotalCellsPrefix | src/atlas/mesh/actions/BuildHalo.cc:1243-1249 | the earlier blocks never hold more cells than all blocks |
| PeriodicCells.FlatIndexGoesStale | src/atlas/mesh/actions/BuildHalo.cc:1243-1249 | a flat index recorded at one level names a different cell once a later level grows an earlier block |
| PeriodicCells.RecordedAt | src/atlas/mesh/actions/BuildHalo.cc:1243-1249 | resolving recorded flat indices gives at most one cell each |
| PeriodicCells.RecordCellPairs | src/atlas/mesh/actions/BuildHalo.cc:1243-1249 | the corrected recording loop gives the (type, local index) pairs |
| PeriodicCells.CellPairsMembership | src/atlas/mesh/actions/BuildHalo.cc:1243-1249 | a pair is recorded exactly when its local index is a new periodic cell of its type |
| PeriodicCells.PairsOutliveGrowth | src/atlas/mesh/actions/BuildHalo.cc:913-948 | a recorded pair names the same cell after any append-only growth |
| PeriodicCells.PairsAgreeWithFlat | src/atlas/mesh/actions/BuildHalo.cc:1243-1249 | while no block has grown, a pair and its flat index name the same cell |
| RenumberFields.LabelOrder | src/atlas/mesh/actions/BuildHalo.cc:147-160 | the label of a gathered index keeps order and ties, and lies in max+1 .. max+#distinct |
| RenumberFields.ConcatContains | src/atlas/mesh/actions/BuildHalo.cc:103-106 | an index of any part is in the gathered sequence |
| RenumberFields.OwnIndicesGathered | src/atlas/mesh/actions/BuildHalo.cc:103-106 | this partition's indices are all in the gathered sequence |
| RenumberFields.GatherNodeGlbs | src/atlas/mesh/actions/BuildHalo.cc:103-106 | the gather loop reads the global index of each node to edit |
| RenumberFields.WriteNodeGlbs | src/atlas/mesh/actions/BuildHalo.cc:168-170 | the write-back loop sets exactly the listed nodes' global index and leaves every other node unchanged |
| RenumberFields.WrittenNodesRelabelled | src/atlas/mesh/actions/BuildHalo.cc:168-170 | a write-back with the right labels gives the specified relabelled nodes |
| RenumberFields.RelabelledNodes | src/atlas/mesh/actions/BuildHalo.cc:87-174 | unlisted nodes are unchanged; listed nodes change only their global index, with order, ties and range of labels kept |
| RenumberFields.AllCellsExactly | src/atlas/mesh/actions/BuildHalo.cc:195-199 | the full cell list holds exactly the existing cells |
| RenumberFields.GatherCellGlbs | src/atlas/mesh/actions/BuildHalo.cc:207-210 | the gather loop reads the global index of each cell to edit |
| RenumberFields.RelabelBlocks | src/atlas/mesh/actions/BuildHalo.cc:253-255 | relabelling changes nothing but global indices |
| RenumberFields.WriteCellGlbs | src/atlas/mesh/actions/BuildHalo.cc:253-255 | the write-back loop sets exactly the listed cells' global index and leaves every other cell unchanged |
| RenumberFields.WrittenBlocksRelabelled | src/atlas/mesh/actions/BuildHalo.cc:253-255 | a write-back with the right labels gives the specified relabelled blocks |
| RenumberFields.SameButGlbKeepsRows | src/atlas/mesh/actions/BuildHalo.cc:253-255 | changing only global indices keeps every row valid and every width |
| RenumberFields.RelabelledCells | src/atlas/mesh/actions/BuildHalo.cc:179-260 | unlisted cells are unchanged; listed cells get labels that keep order, ties and range |
| BuildHaloDriver.Translation | src/atlas/mesh/actions/BuildHalo.cc:272-281 | the shift and its inverse undo each other |
| BuildHaloDriver.BetweenConcat | src/atlas/mesh/actions/BuildHalo.cc:1240-1241 | adjacent index ranges join into one |
| BuildHaloDriver.BetweenMembership | src/atlas/mesh/actions/BuildHalo.cc:1240-1241 | k is in a range exactly when it lies between the bounds |
| BuildHaloDriver.LevelRecordsIn | src/atlas/mesh/actions/BuildHalo.cc:1240-1249 | after a level, the recorded points and cells still name existing entities |
| BuildHaloDriver.AppendedTwice | src/atlas/mesh/actions/BuildHalo.cc:1226-1237 | two appends in a row are one append |
| BuildHaloDriver.NewPeriodicCellsIn | src/atlas/mesh/actions/BuildHalo.cc:1244-1249 | the pairs of new periodic cells name existing cells |
| BuildHaloDriver.SameOutsideWider | src/atlas/mesh/actions/BuildHalo.cc:1251-1253 | metadata unchanged outside a range stays unchanged outside a wider one |
| BuildHaloDriver.CountsStep | src/atlas/mesh/actions/BuildHalo.cc:1251-1253 | recording one more level's node count keeps the counts recorded and everything else unchanged |
| BuildHaloDriver.InteriorStep | src/atlas/mesh/actions/BuildHalo.cc:1038-1096 | the interior pass on a fresh helper: fails on duplicate UIDs; otherwise the buffers from other partitions are the world's, the mesh is their merge (`PassStep`), and no periodic entity is recorded |
| BuildHaloDriver.PeriodicStep | src/atlas/mesh/actions/BuildHalo.cc:1127-1200 | a periodic pass: the buffers from other partitions are the world's, the mesh is their merge (`PassStep`), and exactly its appended nodes and cells are recorded as periodic |
| BuildHaloDriver.PeriodicPasses | src/atlas/mesh/actions/BuildHalo.cc:1220-1237 | the West pass, then the East pass, on the points from before the level: each merges what the world sent (`PassStep`), and the records are exactly the nodes and cells the two appended |
| BuildHaloDriver.LevelPasses | src/atlas/mesh/actions/BuildHalo.cc:1214-1238 | interior, then West, then East, each merging what the world sent into the mesh the previous pass left (`LevelMerged`); the periodic records are exactly the nodes and cells appended after the interior pass |
| BuildHaloDriver.BuildHalo.IncreaseHaloLevel | src/atlas/mesh/actions/BuildHalo.cc:1212-1256 | one level: nodes and cells only appended; the periodic records extended by exactly the nodes and cells appended after the interior pass, all of them created by this level; halo = level + 1; the node count stored under its depth; both fields not human-readable |
| BuildHaloDriver.BuildHalo.NodesToEdit | src/atlas/mesh/actions/BuildHalo.cc:91-101 | the nodes to edit are every node with do_all, otherwise the recorded periodic points |
| BuildHaloDriver.BuildHalo.CellsToEdit | src/atlas/mesh/actions/BuildHalo.cc:195-205 | the cells to edit are every cell with do_all, otherwise the recorded periodic cells |
| BuildHaloDriver.BuildHalo.MakeNodesGlobalIndexHumanReadable | src/atlas/mesh/actions/BuildHalo.cc:69-175 | only the listed nodes are relabelled, starting above `StartMax` (0 with do_all, otherwise the maximum stored on rank 0), and the field is then human-readable |
| BuildHaloDriver.BuildHalo.MakeCellsGlobalIndexHumanReadable | src/atlas/mesh/actions/BuildHalo.cc:179-260 | only the listed cells are relabelled, starting above `StartMax`; rows are unchanged, and the field is then human-readable |
| BuildHaloDriver.BuildHalo.GrowLevels | src/atlas/mesh/actions/BuildHalo.cc:1212-1267 | levels from the stored halo to the requested depth: old nodes and cells stay a prefix; every appended cell has a halo of one of those levels and patch 0; the records only gain entities the loop created; halo becomes the depth; each level's node count is recorded; other metadata is unchanged |
| BuildHaloDriver.BuildHalo.Run | src/atlas/mesh/actions/BuildHalo.cc:1202-1274 | returns with nothing changed when the stored halo equals the request; otherwise grows the levels, then relabels exactly the recorded periodic nodes and cells of the grown mesh (`RenumberedNodes`, `RenumberedBlocks`) and makes both fields human-readable |
| BuildHaloDriver.BuildHalo.RenumberPeriodic | src/atlas/mesh/actions/BuildHalo.cc:1269-1272 | the recorded periodic nodes, then the recorded periodic cells, are relabelled (`RenumberedNodes`, `RenumberedBlocks`); only global indices change, and both fields become human-readable |
| BuildHaloDriver.BuildHalo.constructor | src/atlas/mesh/actions/BuildHalo.cc:1202-1206 | the builder works on the given mesh, UID function and projection, with no periodic node or cell recorded yet |
| StructuredGrid.MaxOfIsMaximum | src/atlas/grid/global/Structured.cc:106-116 | the maximum is one of the counts and bounds every count |
| StructuredGrid.SumBoundsRows | src/atlas/grid/global/Structured.cc:106-116 | no row count exceeds the total |
| StructuredGrid.Int32 | src/atlas/grid/global/Structured.cc:204-210 | the int conversion wraps into the 32-bit range, is congruent to its input, and is the identity in range |
| StructuredGrid.RowsLayout | src/atlas/grid/global/Structured.cc:161-173 | there are npts points, and point (jlat, jlon) sits after the earlier rows' points |
| StructuredGrid.InterleavedAt | src/atlas/grid/global/Structured.cc:224-230 | entry 2k is point k's longitude and 2k+1 its latitude |
| StructuredGrid.MirrorRows | src/atlas/grid/global/Structured.cc:136-147 | 2N rows: the first half as given, the second half mirrored with latitudes negated, so the rows are symmetric about the equator |
| StructuredGrid.Structured.Empty | src/atlas/grid/global/Structured.cc:55-57 | an empty grid with no rows |
| StructuredGrid.Structured.Setup | src/atlas/grid/global/Structured.cc:89-119 | fails the assertion exactly when there is at most one latitude, changing nothing; otherwise npts is the sum and nlonmax the maximum of the counts |
| StructuredGrid.Structured.SetupLatHemisphere | src/atlas/grid/global/Structured.cc:136-147 | sets up the mirrored rows; fails only on an empty hemisphere |
| StructuredGrid.Structured.LonLat | src/atlas/grid/global/Structured.cc:161-173 | gives npts points, row by row |
| StructuredGrid.Structured.CopyLonLatMemory | src/atlas/grid/global/Structured.cc:217-233 | fails with the buffer unchanged when it is smaller than 2·npts; otherwise fills the interleaved pairs, returns 2·npts and leaves the rest of the buffer |
| StructuredGrid.Structured.NptsPerLat | src/atlas/grid/global/Structured.cc:204-210 | converts the counts on the first call only, and every call returns the cached copy |
| StructuredGrid.WriteRow | src/atlas/grid/global/Structured.cc:224-230 | writes one row's interleaved pairs and nothing else |
| StructuredGrid.SumPrefix | src/atlas/grid/global/Structured.cc:106-116 | the total of a prefix grows by the next count |
| StructuredGrid.RowsStep | src/atlas/grid/global/Structured.cc:161-173 | the rows of a prefix grow by the next row |
| StructuredGrid.Create | src/atlas/grid/global/Structured.cc:59-81 | a missing npts_per_lat, latitudes, grid_type or shortName is a BadParameter in that order, at most one latitude fails the assertion, and otherwise the grid is set up |
| EdgeColumnsConfig.ConfigSize | src/atlas/functionspace/EdgeColumns.cc:190-202 | nb_edges unless global; when global, the global count on the owner (default 0) and 0 elsewhere |
| EdgeColumnsConfig.GlobalSizeOnOwnerOnly | src/atlas/functionspace/EdgeColumns.cc:190-202 | a global field's sizes over all ranks add up to the global count when the owner is a rank, else 0 |
| EdgeColumnsConfig.ConfigLevels | src/atlas/functionspace/EdgeColumns.cc:216-220 | the configured levels, defaulting to the function space's |
| EdgeColumnsConfig.ConfigDatatype | src/atlas/functionspace/EdgeColumns.cc:204-208 | fails with "datatype missing" exactly when the datatype is absent |
| EdgeColumnsConfig.ConfigName | src/atlas/functionspace/EdgeColumns.cc:210-214 | the configured name, or the empty name |
| EdgeColumnsConfig.ShapeOf | src/atlas/functionspace/EdgeColumns.cc:222-236 | the shape starts with the size |
| EdgeColumnsConfig.ShapeOfDimensions | src/atlas/functionspace/EdgeColumns.cc:222-236 | the shape has 1 to 3 dimensions, led by the size, with levels and variables only when positive, and its product counts every value |
| EdgeColumnsConfig.ConfigShape | src/atlas/functionspace/EdgeColumns.cc:222-236 | the building loop gives the specified shape |
| EdgeColumnsConfig.SetFieldMetadata | src/atlas/functionspace/EdgeColumns.cc:168-188 | always sets "global", sets "owner" only for a global field, and sets levels and variables |
| EdgeColumnsConfig.FromConfig | src/atlas/functionspace/EdgeColumns.cc:238-254 | fails the assertion exactly when a requested halo differs from the mesh's halo (0 when absent) |
| EdgeColumnsConfig.FromHalo | src/atlas/functionspace/EdgeColumns.cc:256-268 | fails the assertion exactly when the halo differs from the mesh's |
| EdgeColumnsConfig.SizeT | src/atlas/functionspace/EdgeColumns.cc:530-541 | the size_t conversion wraps modulo 2^64 |
| EdgeColumnsConfig.Reversed | src/atlas/functionspace/EdgeColumns.cc:530-535 | the reversal has the same length, with entry i taken from the mirrored position |
| EdgeColumnsConfig.ReversedTwice | src/atlas/functionspace/EdgeColumns.cc:543-550 | reversing twice gives the original |
| EdgeColumnsConfig.ReverseCopy | src/atlas/functionspace/EdgeColumns.cc:530-535 | the array holds the converted variables reversed |
| EdgeColumnsConfig.Copy | src/atlas/functionspace/EdgeColumns.cc:537-541 | the array holds the converted variables in order |
| EdgeColumnsConfig.VariablesToVector | src/atlas/functionspace/EdgeColumns.cc:543-550 | reversed with Fortran ordering, otherwise an identical copy, always of length size |
| NablaRegistry.StrLessOrder | src/atlas/numerics/Nabla.cc:91 | `std::string` comparison (`StrLess`, character by character, a prefix first) is a strict total order |
| NablaRegistry.LookupConcat | src/atlas/numerics/Nabla.cc:130 | a lookup finds the first entry with the name |
| NablaRegistry.LookupFinds | src/atlas/numerics/Nabla.cc:113-121 | a name is found exactly when it is a key, and a sorted map finds its own entry |
| NablaRegistry.AbsentFromRuns | src/atlas/numerics/Nabla.cc:91 | a name between two sorted runs occurs in neither |
| NablaRegistry.JoinedShape | src/atlas/numerics/Nabla.cc:106-110 | the listing starts with the first name and adds two characters per separator, with no leading separator |
| NablaRegistry.TotalLengthSnoc | src/atlas/numerics/Nabla.cc:106-110 | adding a name adds its length |
| NablaRegistry.Registry.constructor | src/atlas/numerics/Nabla.cc:85-92 | the registry starts empty |
| NablaRegistry.Registry.Register | src/atlas/numerics/Nabla.cc:85-92 | fails the assertion, changing nothing, exactly when the name is taken; otherwise the name maps to the new factory and nothing else changes |
| NablaRegistry.Registry.Unregister | src/atlas/numerics/Nabla.cc:94-97 | the name is no longer registered, and nothing else changes |
| NablaRegistry.Registry.Has | src/atlas/numerics/Nabla.cc:113-121 | true exactly when the name is registered |
| NablaRegistry.Registry.Build | src/atlas/numerics/Nabla.cc:123-143 | a SeriousBug naming the method when it is not registered; otherwise that factory's make |
| NablaRegistry.Registry.List | src/atlas/numerics/Nabla.cc:99-111 | the names in key order, separated by ", " |
| UnstructuredIterators.StartPosition | src/atlas/grid/detail/grid/Unstructured.h:39-41 | begin starts at 0, end at the number of points |
| UnstructuredIterators.IteratorXY.constructor | src/atlas/grid/detail/grid/Unstructured.h:39-41 | the position is 0 for begin and the size for end |
| UnstructuredIterators.IteratorXY.Next | src/atlas/grid/detail/grid/Unstructured.h:43-51 | before the end, gives the point at the position (`Current`) and advances by one; at the end, returns false and stays |
| UnstructuredIterators.IteratorXY.Increment | src/atlas/grid/detail/grid/Unstructured.h:55-58 | advances by one |
| UnstructuredIterators.IteratorXY.NotEqual | src/atlas/grid/detail/grid/Unstructured.h:60-66 | `!=` is the negation of `==` (`Equal`), and both compare positions only |
| UnstructuredIterators.IteratorXYPredicated.constructor | src/atlas/grid/detail/grid/Unstructured.h:75-81 | begin starts at 0 whether or not the predicate holds there |
| UnstructuredIterators.IteratorXYPredicated.Next | src/atlas/grid/detail/grid/Unstructured.h:83-92 | not implemented |
| UnstructuredIterators.IteratorXYPredicated.Increment | src/atlas/grid/detail/grid/Unstructured.h:96-102 | advances at least once, stops at the size or at the first accepted position, skips only rejected positions, and never passes the size |
| UnstructuredIterators.IteratorXYPredicated.NotEqual | src/atlas/grid/detail/grid/Unstructured.h:104-110 | `!=` is the negation of `==` (`Equal`), which compares positions only |
| UnstructuredIterators.IteratorLonLat.constructor | src/atlas/grid/detail/grid/Unstructured.h:121-124 | the position is 0 for begin and the size for end |
| UnstructuredIterators.IteratorLonLat.Next | src/atlas/grid/detail/grid/Unstructured.h:125-133 | before the end, gives the projected point at the position (`Current`) and advances; at the end, returns false and stays |
| UnstructuredIterators.IteratorLonLat.Increment | src/atlas/grid/detail/grid/Unstructured.h:137-140 | advances by one |
| UnstructuredIterators.IteratorLonLat.NotEqual | src/atlas/grid/detail/grid/Unstructured.h:142-148 | `!=` is the negation of `==` (`Equal`), which compares positions only |
| UnstructuredIterators.WalkXY | src/atlas/grid/detail/grid/Unstructured.h:39-58 | walking with `next` from begin hands out every point once, in order |
| PolygonEdges.ReverseInvolution | src/atlas/mesh/detail/Polygon.h:40-42 | `reverse` (`Reverse`) twice gives the edge back, and only a loop is its own reverse |
| PolygonEdges.LessThanStrictTotal | src/atlas/mesh/detail/Polygon.h:44-51 | `operator<` (`LessThan`, first endpoints, then second) is irreflexive, transitive, asymmetric, and total on distinct edges |
| PolygonEdges.ReverseEquivalent | src/atlas/mesh/detail/Polygon.h:40-51 | an edge and its reverse are equivalent exactly when both endpoints are equal |
| PolygonEdges.Insert | src/atlas/mesh/detail/Polygon.h:54 | inserting keeps the set ascending, adds the edge if absent, and changes nothing if present |
| PolygonEdges.FromEdges | src/atlas/mesh/detail/Polygon.h:54 | a set built by insertions is ascending |
| PolygonEdges.FromEdgesMembers | src/atlas/mesh/detail/Polygon.h:54 | the set holds exactly the inserted edges, each once |
| PolygonEdges.EdgeAndReverse | src/atlas/mesh/detail/Polygon.h:40-54 | an edge and its reverse are two elements unless the edge is a loop |

## Left out

- Communication between partitions is not modelled. All-to-all exchanges,
  gathers and scatters, and the non-blocking sends and receives of the
  `ATLAS_103` build are replaced by given data and by concatenation or
  splitting. The own slot of an exchange is what this partition sent itself.
- The UID functions (`UniqueLonLat`, `util::unique_lonlat`) are abstract.
  The projection to lon/lat is an abstract function.
- `PeriodicTransform` is not part of this model. WestEast and EastWest are
  modelled as translations by +360 and -360 of the x coordinate.
- `accumulate_facets` is not part of this model. Its facet tables are given
  data. Only the default boundary detection (`accumulate_partition_bdry_nodes_old`)
  is modelled.
- Where the source throws or asserts in the middle of an operation, the model
  returns an error value. The partial state left at that point is not
  described beyond what the contract says.
- HaloMerge.HaloHelper.AddBuffers: requires at least one node. In
  `add_elements`, `uid2node[...]` inserts node 0 for an unknown UID, and the
  model needs node 0 to exist for the rows to stay valid.
- HaloMerge.MergeElements: follows the code, not the documented intent. A
  shipped node UID missing from the map gives node 0 (the `std::map` default)
  instead of an error.
- BuildHaloDriver.BuildHalo.Run: follows the code. When the stored halo is
  larger than the requested depth, no level is built, but both renumberings
  still run and mark the fields human-readable. The grown mesh is described
  as GrowLevels describes it; the renumbering that follows is stated exactly.
- BuildHaloDriver.BuildHalo.IncreaseHaloLevel: states the growth of nodes and
  blocks as appends, plus exactly the nodes and cells recorded as periodic.
  What the appended nodes and cells are is stated one call down, by
  BuildHaloDriver.LevelPasses (`LevelMerged`: each pass merges the buffers it
  received into the mesh the previous pass left). That equation is not
  carried up to the level or the level loop; their contracts keep to the
  facts listed here.
- BuildHaloDriver.BuildHalo.GrowLevels: states the growth over all levels as
  prefixes, the halo and patch of every appended cell, and records that only
  gain entities the loop created; it does not say which buffers each level
  merged (see IncreaseHaloLevel).
- BuildHaloDriver.Translation: coordinates are real numbers. The rounding of
  `x + 360` and `x - 360` in double precision is not modelled, so in the model
  the backward shift always undoes the forward one exactly.
- Node and cell identifiers: the source computes node identifiers with two
  functions. One is `UniqueLonLat` over the mesh's node coordinates
  (src/atlas/mesh/actions/BuildHalo.cc lines 412-416, 769, 834 and 1057). The
  other is `util::unique_lonlat` over raw coordinates (lines 711, 744, 794 and
  1157). Cell identifiers likewise come from `UniqueLonLat` over a row (line
  866) and from `util::unique_lonlat` over the coordinates (line 750). The
  model has one abstract `uid.node` and one abstract `uid.cell`. It assumes
  the two functions agree on the same coordinates, which is what lets a
  received node or cell match a local one.
- What other partitions send: `World.Valid` assumes it is well formed.
  Every received buffer is well formed for this mesh's block widths, and
  every facet table is valid for the nodes it is built from. The source
  checks neither. A malformed buffer from another partition, or a facet
  naming a missing node, is outside the model.
- The halo of a pass helper (`BuildHaloHelper`) is a constant, read once
  from the mesh in its constructor. A change to the mesh's stored halo during
  the same level would not be seen; the source makes none.
- The recorded periodic ghost cells are (type, local index) pairs, not flat
  indices; see Findings.
- The node renumbering start uses the maximum stored on partition 0, where the
  sort and the labelling happen. The other partitions' stored maxima are not used.
- Logging, tracing, `Buffers::print`, `DEBUG_OUTPUT` blocks and the
  `extern "C"` bindings are left out.
- Integer widths in BuildHalo (`int`, `idx_t`, `gidx_t`) are unbounded here;
  overflow of node or cell counts is not modelled.
- The mutex and `pthread_once` of the Nabla registry are left out. So is the
  temporary registration that forces the built-in factories to link. Only
  the name→factory map is modelled.
- NablaRegistry.Registry.Build: the factory's `make` is a function parameter.
  The numerical operators that factories build (`numerics/fvm/Nabla.cc`)
  are not part of this model.
- Structured grids: `lon_inc`, `lonmin`/`lonmax` and bounding-box arithmetic
  are left out. Longitudes are a function parameter of (row, index). The row
  counts are natural numbers.
- StructuredGrid.Structured.Setup: the 3-argument overload's computation of
  `lonmax` from `lon_inc` is not modelled; only counts, latitudes and the
  assertion are.
- StructuredGrid.Create: requires that, when both are present, there are no
  more latitudes than row counts. The source reads both arrays with the
  latitudes' length.
- EdgeColumns caches, mesh observers, halo exchange, gather/scatter and the
  checksum are left out. The global edge count is a parameter, not a lazily
  computed value.
- EdgeColumnsConfig.FromHalo: requires the mesh to carry "halo" metadata. Without
  it the source compares against an uninitialised member.
- UnstructuredIterators.IteratorXYPredicated.Increment: requires a position
  before the end. At the end, the source's `++n_` moves past the size, so the
  test `n_ == size_` never holds again. The predicate is then called on
  positions size + 1, size + 2 and so on, and the loop stops only if the
  predicate accepts one of them (or after `n_` wraps around).
- UnstructuredIterators.IteratorXY.Next: requires a position no later than
  the end. The source tests `n != size`, so a position already past the end
  (reached with `++`) would read past the points.
- UnstructuredIterators.IteratorLonLat.Next: the same requirement as IteratorXY.Next.
- Polygon: only edges, their reversal, their order and edge sets are
  modelled. The Polygon operations declared in `Polygon.h` have no bodies in it.

## Findings

| source | as written | input that shows it | evidently intended | confidence | as-written member | corrected member |
|---|---|---|---|---|---|---|
| src/atlas/mesh/actions/BuildHalo.cc:1243-1249 | each level records a periodic ghost cell as the flat index c + p, with c the size of the earlier type blocks at that level | two type blocks holding 1 and 2 cells; a level records cell 1 of type 1 as flat index 2; the next level appends a cell to type 0, so flat index 2 now names cell 0 of type 1, and renumbering with do_all = false edits that cell instead | each recorded index should keep naming the cell it recorded across later levels, since blocks only grow at their ends | not executed | PeriodicCells.FlatIndexGoesStale | PeriodicCells.PairsOutliveGrowth |
