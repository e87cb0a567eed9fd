# Family tree from Markdown person notes — a Dafny model

The Python pipeline reads a folder of Markdown notes, one note per person,
and builds a family graph. It ships as three near-copies:

- `python/test2.py` (matplotlib layout);
- `python/custom_visual.py` (matplotlib layout with spacing parameters);
- `python/graphiz_visual.py` (graphviz drawing).

This project models their shared core once and cites each copy where it
differs.

- **Parents-section parser** (`parser.dfy`, module `ParentsParser`).
  - The header `# Родители\n` is found as a plain leftmost substring, so it also fires inside `## Родители\n`.
  - The section runs up to the first `\n#` or to the end of the text.
  - In the section, the first `- Мать:` / `- Отец:` link is matched exactly as the regular expression `label\s*\[\[(.*?)\]\]` matches it. The `\s*` is greedy and uses Python's `str.isspace` set. The capture is lazy and may not cross a newline.
  - The capture is cut at the first vertical bar and stripped.
- **One node per note** (`registry.dfy`, module `NoteFiles`).
  - Every file yields a node keyed by its stem, with `id == name == stem`, whether or not it has a parents section.
  - A later file with the same stem overwrites the node but keeps the key's place, as a Python dict does.
- **The family graph and linking** (`graph.dfy`, module `FamilyGraph`).
  - Nodes live in a `map<string, Node>`. The dict's insertion order is a `seq<string>`.
  - `mother` and `father` are optional ids: the model identifies objects by their keys.
  - Linking resolves each parent id with `nodes.get`, so an unknown id becomes `None`.
  - Each child is then appended once per resolved parent field.
- **Generation assignment** (`generations.dfy`, module `Generations`).
  - `calculate_generations` is modelled as a queue relaxation bounded by a `fuel` step count.
  - A `guarded` flag selects between two variants:
    - the copies in `test2.py` and `custom_visual.py` check the map before enqueuing;
    - the copy in `graphiz_visual.py` enqueues everything.
  - The queue phase is followed by the two fallback passes, and then the `-1` default.
- **Views** (`views.dfy`, module `Views`):
  - `print_tree` as a sequence of (level, id, name, generation) lines;
  - the parent-key partition of `_group_parents`;
  - the generation buckets of `_calculate_positions`;
  - the graphviz roles, border colours, same-rank pairs and edge list.
- **The stateful `FamilyTree`** (`family_tree.dfy`, module `FamilyTrees`).
  - It is a class whose `nodes` and `order` fields its methods update in place.
  - Each loop of the source is a method proved against the specification functions above.
  - `ParseMdFiles` runs the whole pipeline.

Three behaviours of the code are easy to misread, and the model keeps them
as the code has them:

- Every `*.md` file becomes a node, whether or not it has a parents section. Of two files with the same stem, the later one replaces the earlier node (`python/test2.py:306-309`).
- No stub node is created for a parent id that names no note. The id resolves to `None` (`python/test2.py:313-316`).
- Children are not deduplicated. A node whose mother and father are the same node appears twice in that node's `children` (`python/test2.py:318-321`).

## Model

| member | source | states |
|---|---|---|
| Common.FirstOccurrences | python/test2.py:26-27 | the key order of the dict: each key once, exactly the keys ever added |
| Common.FirstIndex | python/test2.py:26-27 | the place where a key is first added: it holds the key, and no earlier place does |
| Common.FirstOccurrencesOrder | python/test2.py:26-27 | the dict's key order is first-insertion order: one key comes before another iff it was first added earlier |
| ParentsParser.Find | python/test2.py:297 | a literal substring search: the result is the leftmost occurrence at or after the start, and None means there is none |
| ParentsParser.Section | python/test2.py:297 | a parents section exists iff the text contains `# Родители\n` anywhere, including inside `## Родители\n` |
| ParentsParser.SectionBounds | python/test2.py:297 | the section is the text right after the first header, up to the first `\n#` or the end of text, and it never contains `\n#` |
| ParentsParser.SkipSpace | python/test2.py:300 | greedy `\s*`: stops at the first character that is not whitespace, having skipped only whitespace |
| ParentsParser.SpaceBack | python/test2.py:303 | the right end of `strip`: backs over trailing whitespace only, up to the first non-whitespace character |
| ParentsParser.CloseFrom | python/test2.py:300 | lazy `(.*?)\]\]`: the first `]]` with no newline before it, and None when every `]]` lies past a newline |
| ParentsParser.MatchAtSound | python/test2.py:300-301 | a match at a position is a label, whitespace, `[[`, a newline-free capture and the first following `]]` |
| ParentsParser.MatchAtComplete | python/test2.py:300-301 | every such link shape at a position is what the match there returns |
| ParentsParser.FirstLinkAt | python/test2.py:300-301 | `re.search`: the leftmost position where the link pattern matches, and None when none does |
| ParentsParser.MatchAt | python/test2.py:300-301 | the regular expression tried at one position; specified by MatchAtSound and MatchAtComplete |
| ParentsParser.FirstLink | python/test2.py:300-303 | `group(1)` of the leftmost match, or None; specified through FirstLinkAt, FirstLinkNoBreak and ParentId |
| ParentsParser.AliasHead | python/test2.py:303-304 | the first piece of the split on the vertical bar: the longest prefix without a bar, ending just before the first bar |
| ParentsParser.Strip | python/test2.py:303-304 | `strip()`: the result is trimmed, the input is whitespace + result + whitespace, and a trimmed input is unchanged |
| ParentsParser.FirstLinkNoBreak | python/test2.py:300-301 | a capture never holds a newline |
| ParentsParser.CleanIdFacts | python/test2.py:303-304 | the cleaned capture has no vertical bar, no surrounding whitespace and no newline, and is a substring of the capture |
| ParentsParser.ParentId | python/custom_visual.py:208-212 | an id exists iff the label's link matches; it is the bracketed text cut just before its first vertical bar (AliasHead) and stripped (Strip), so it is well formed and a substring of the bracketed text |
| ParentsParser.Parse | python/test2.py:296-304 | with no header both ids are None; with a section, the mother and the father are exactly what ParentId makes of that section's first `- Мать:` and `- Отец:` links: present iff the link matches, and then its bracketed text cut at the first vertical bar and stripped; every id found is trimmed, free of vertical bars and newlines |
| ParentsParser.MatchLinkLine | python/test2.py:300 | a link line `label [[x]]` whose x holds no newline and no `]` is matched at its start and captures x |
| ParentsParser.SerializedSection | python/test2.py:297 | a note written with both parent lines has exactly those lines as its section |
| ParentsParser.SerializedMother | python/test2.py:300 | the mother line of such a note yields the mother |
| ParentsParser.SerializedFather | python/test2.py:301 | the father line yields the father, although the mother line comes first |
| ParentsParser.AliasHeadBar | python/custom_visual.py:211-212 | the first piece of the split on the vertical bar is exactly the text before the first bar |
| ParentsParser.StripPadded | python/custom_visual.py:211-212 | `strip()` of a trimmed text padded with whitespace gives the text back |
| ParentsParser.AliasedLinkId | python/custom_visual.py:208-212 | a link line opening the section whose brackets hold ` x `, a vertical bar and an alias yields the id x: the alias after the bar and the spaces around x are dropped |
| ParentsParser.ParseAliasedMother | python/custom_visual.py:205-212 | round trip with an alias: a note whose section opens with a `- Мать:` link holding ` x `, a vertical bar and an alias parses to mother x, for any trimmed one-line x without a bar or `]` and any one-line alias without `]` |
| ParentsParser.ParseSerialize | python/graphiz_visual.py:121-128 | round trip: parsing a note written with a mother and a father gives back exactly those two ids, for any names that are trimmed, on one line, free of vertical bars and `]`, and do not contain the father label (hyphens and `#` included) |
| NoteFiles.FileNode | python/test2.py:306-308 | `TreeNode(stem, stem)` holding the parsed ids: id and name are the stem, no children, generation -1, mother and father as the parser found them, well formed, and none when the note has no header |
| NoteFiles.Stems | python/test2.py:291-292 | one stem per file, in listing order |
| NoteFiles.Registry | python/test2.py:291-309 | the dict after `add_node` for every file in order; specified by RegistryShape, RegistryLastWins and RegistrySnoc |
| NoteFiles.RegistryShape | python/test2.py:291-309 | the dict has a key iff some file has that stem; each node has id == name == key, no children and generation -1 |
| NoteFiles.RegistryLastWins | python/test2.py:26-27 | `add_node` overwrites: the last file with a stem decides that stem's node |
| NoteFiles.RegistrySnoc | python/custom_visual.py:214-217 | adding one file's node sets its key, and the key order grows only for a new stem |
| FamilyGraph.Resolve | python/test2.py:313-316 | `nodes.get`: a reference resolves iff it names an existing node, and then to that node |
| FamilyGraph.RepeatSpec | python/test2.py:318-321 | appending a child k times puts it exactly k times |
| FamilyGraph.ChildEntries | python/test2.py:318-321 | the children a parent collects in dict order; specified by ChildEntriesMembers and ChildEntriesCount |
| FamilyGraph.ChildEntriesMembers | python/graphiz_visual.py:140-143 | a parent's child list holds c iff c is in the dict and one of c's parent fields names that parent |
| FamilyGraph.ChildEntriesCount | python/test2.py:318-321 | a child occurs in the parent's list once per field that names the parent, so twice when mother and father coincide |
| FamilyGraph.ChildEntriesResolved | python/test2.py:313-321 | resolving first does not change which children a present parent collects |
| FamilyGraph.LinkAll | python/test2.py:312-321 | linking adds and removes no key |
| FamilyGraph.LinkStep | python/test2.py:313-321 | one iteration of the linking loop; specified by LinkStepAt |
| FamilyGraph.LinkStepAt | python/graphiz_visual.py:135-143 | one loop step resolves the node's own fields and appends it to each resolved parent once per field; every other field is kept |
| FamilyGraph.LinkPrefixStep | python/test2.py:312 | the loop over the dict, one node at a time, computes the linked graph in dict order |
| FamilyGraph.LinkAllLinked | python/test2.py:312-321 | after linking every parent field is None or names a node, and so does every child entry |
| FamilyGraph.LinkAllConsistent | python/custom_visual.py:220-229 | after linking each node's children are the nodes naming it, in dict order, with multiplicity |
| FamilyGraph.LinkAllSound | python/test2.py:312-321 | both of the above, and ids, names and generations are unchanged |
| FamilyGraph.NamesAsStep | python/graphiz_visual.py:71-75 | the inner role loop over one more child adds exactly that child's evidence |
| FamilyGraph.EvidenceIsNamesAs | python/graphiz_visual.py:70-75 | the nested role loop tests exactly the node's own children |
| FamilyGraph.RolesAreDeclared | python/graphiz_visual.py:68-75 | on a linked graph a node is a mother (father) iff some node names it as its mother (father) |
| Generations.Roots | python/test2.py:33 | the roots are exactly the nodes with neither mother nor father |
| Generations.InitialQueue | python/test2.py:34 | the queue starts with every root, each at the base generation, and nothing else |
| Generations.ParentOffers | python/test2.py:44-46 | what the parent loop enqueues; specified by ParentOffersSpec |
| Generations.ChildOffers | python/test2.py:49-52 | what the child loop enqueues; specified by ChildOffersSpec |
| Generations.Offers | python/custom_visual.py:53-61 | parent offers, then child offers; specified by OffersSpec |
| Generations.ParentOffersSpec | python/test2.py:44-46 | parents are offered gen-1, each iff unassigned or below gen-1 (always when unguarded) |
| Generations.ChildOffersSpec | python/custom_visual.py:58-61 | children are offered gen+1 under the same rule; the unguarded copy offers every child |
| Generations.Step | python/graphiz_visual.py:31-39 | an entry is skipped iff the map already holds a value >= its generation; otherwise the map takes its generation and the offers to parents and children, made against the updated map, are appended behind the rest of the queue |
| Generations.OffersSpec | python/custom_visual.py:53-61 | every offer names a node, and the guarded copy offers only improvements over the map |
| Generations.StepKeepsOrder | python/test2.py:36-52 | first in, first out: the rest of the queue keeps its order ahead of the new offers; no recorded value drops |
| Generations.StepGuard | python/test2.py:45-52 | in the guarded copy every new queue entry beats the map at the time it is enqueued |
| Generations.Run | python/test2.py:36-52 | the queue and the map stay over existing nodes for any number of steps |
| Generations.RunMonotone | python/test2.py:36-41 | during the queue phase a node's recorded generation only increases |
| Generations.ParentGens | python/test2.py:61-64 | exactly the recorded generations of the present parents |
| Generations.ChildGens | python/test2.py:71 | exactly the recorded generations of the children |
| Generations.Max | python/test2.py:67 | `max`: an element at least as large as every element |
| Generations.Min | python/test2.py:73 | `min`: an element no larger than any element |
| Generations.FillOne | python/test2.py:56-73 | the fallback body for one node; specified by FillOneSpec |
| Generations.FillPass | python/graphiz_visual.py:42-51 | one fallback pass in dict order; specified by FillPassKeeps |
| Generations.Fallback | python/test2.py:55-73 | the two passes; specified by FallbackKeeps |
| Generations.FillOneSpec | python/test2.py:56-73 | an assigned node is left alone; otherwise it gets max(parent gens)+1, else min(child gens)-1, else stays unassigned |
| Generations.FillPassKeeps | python/graphiz_visual.py:42-51 | a pass never changes an assigned node and assigns only nodes of the dict |
| Generations.FallbackKeeps | python/graphiz_visual.py:41-51 | the same for both passes |
| Generations.Assign | python/test2.py:76-77 | every node's generation is its map value, or -1; all other fields are kept |
| Generations.AssignKeepsLinks | python/test2.py:76-77 | storing generations leaves the links intact |
| Generations.SelfMotherCycle | python/test2.py:36-52 | in the tree of a root R and its child X, where X is also its own mother, two steps return the queue to its shape with every value raised by one |
| Generations.SelfMotherRuns | python/test2.py:36-52 | from that cycle the queue is non-empty after any number of steps |
| Generations.SelfMotherNeverDrains | python/custom_visual.py:45-61 | the guarded queue loop does not terminate for that tree: no fuel drains it |
| Views.InsertDesc | python/test2.py:90 | inserting keeps the elements with their multiplicities |
| Views.InsertDescSorted | python/test2.py:90 | inserting into a list sorted by descending generation keeps it sorted |
| Views.SortByGenerationDesc | python/test2.py:90 | `sorted(..., key=generation, reverse=True)`: non-increasing generations and a permutation of the input |
| Views.SortedFrom | python/test2.py:90 | the sorted list holds exactly the node's children |
| Views.LexTotal | python/test2.py:242 | the string order that `sorted` uses is total |
| Views.ParentKey | python/test2.py:242 | `tuple(sorted(...))` of the present parent ids; specified by ParentKeySpec |
| Views.ParentKeySpec | python/test2.py:242 | the group key holds exactly the present parent ids, sorted |
| Views.WithKeyMembers | python/test2.py:240-243 | a group's list holds x iff x is an input node whose key is the group's key |
| Views.WithKey | python/test2.py:241-243 | the list `parent_map` collects for one key; specified by WithKeyMembers |
| Views.FiledUnderOwnKey | python/test2.py:241-243 | every filed node sits under its own parent key |
| Views.FiledStep | python/test2.py:241-243 | filing one more node keeps the dict of lists, its key order and its count in step with the nodes seen |
| Views.KeyOrderStep | python/test2.py:243 | `parent_map[parents].append` adds a key to the dict's key order iff the key is new, keeping first-appearance order |
| Views.KeysOf | python/test2.py:242 | the parent key of each input node, in input order |
| Views.GroupsCover | python/test2.py:245-251 | every input node lies in some group |
| Views.KnownAll | python/test2.py:247 | filtering ids that all exist keeps them all |
| Views.Known | python/test2.py:247 | the key's ids that name a node; specified by KnownAll and ParentKeyKnown |
| Views.ParentKeyKnown | python/test2.py:247 | on a linked graph a group's parents are its whole key |
| Views.OfGeneration | python/custom_visual.py:94-96 | a bucket holds x iff x is a node of that generation, in dict order |
| Views.PlaceStep | python/custom_visual.py:94-96 | placing one more node keeps every kept generation's bucket equal to its nodes |
| Views.BorderColor | python/graphiz_visual.py:81-86 | red iff a mother; blue iff a father but not a mother; black iff neither |
| Views.SpousePairs | python/graphiz_visual.py:94-101 | the same-rank pairs; specified by SpousePairsMembers |
| Views.NodeEdges | python/graphiz_visual.py:105-107 | the edges of one node; specified through EdgeList and EdgeCount |
| Views.SpousePairsMembers | python/graphiz_visual.py:94-101 | (m, f) is ranked together iff some node has mother m and father f |
| Views.EdgeList | python/graphiz_visual.py:104-107 | (p, c) is an edge iff p is one of c's parent fields |
| Views.EdgeCount | python/graphiz_visual.py:104-107 | the edge (p, c) occurs once per parent field of c that names p |
| FamilyTrees.FamilyTree.constructor | python/test2.py:23-24 | the tree starts with an empty dict |
| FamilyTrees.FamilyTree.AddNode | python/test2.py:26-27 | the node is stored under its id, overwriting; the key joins the order only if new |
| FamilyTrees.FamilyTree.Link | python/test2.py:311-321 | the nodes become the linked graph, which is linked and consistent when no node had children before |
| FamilyTrees.FamilyTree.LinkNodes | python/custom_visual.py:220-229 | the loop over the dict computes the linked graph |
| FamilyTrees.FamilyTree.LinkOne | python/graphiz_visual.py:136-143 | one loop iteration computes one linking step |
| FamilyTrees.FamilyTree.CalculateGenerations | python/test2.py:29-77 | the new nodes are the old ones with generations from the queue phase and the two fallback passes, or -1; reports whether the queue drained |
| FamilyTrees.FamilyTree.RelaxQueue | python/test2.py:33-52 | the queue loop started from the roots computes the bounded run |
| FamilyTrees.FamilyTree.Drain | python/test2.py:36-52 | the while loop computes `fuel` steps of the queue relaxation, or stops when the queue is empty |
| FamilyTrees.FamilyTree.RelaxOne | python/test2.py:37-52 | one iteration of the while loop is one relaxation step |
| FamilyTrees.FamilyTree.Enqueue | python/custom_visual.py:53-61 | the offers to parents and then to children are appended in that order |
| FamilyTrees.FamilyTree.OfferToParents | python/test2.py:44-46 | the parent loop appends the parent offers |
| FamilyTrees.FamilyTree.OfferToChildren | python/test2.py:49-52 | the child loop appends the child offers |
| FamilyTrees.FamilyTree.FallbackPasses | python/test2.py:55-73 | the two passes compute the fallback |
| FamilyTrees.FamilyTree.FillAll | python/custom_visual.py:65-82 | one pass over the dict fills nodes one by one |
| FamilyTrees.FamilyTree.FillNode | python/graphiz_visual.py:43-51 | the body of the pass for one node |
| FamilyTrees.FamilyTree.StoreGenerations | python/test2.py:76-77 | every node gets its map value or -1 |
| FamilyTrees.FamilyTree.PrintTree | python/test2.py:79-91 | the printed lines and the visited set afterwards equal the recursive listing Views.Listing: a visited node prints nothing; otherwise its own line, then each child in descending generation (the stable sort), each child's whole subtree before the next child and each call seeing what the earlier ones visited. Proved of that listing along the way: each node prints at most once, even on cycles; every node newly visited has all its children visited; every later line hangs below an earlier line one level up that shows one of its parents, with only deeper lines in between; the direct children appear in non-increasing generation order |
| Views.Listing | python/test2.py:79-91 | the recursion of `print_tree` as a definition: a visited node lists nothing, any other node its own line and then ListKids of its children sorted by descending generation; the visited set only grows, and the node joins it |
| Views.ListKids | python/test2.py:90-91 | the child loop: each child's listing in turn, one level deeper, each seeing the visited set the previous one left; the set only grows |
| Views.ListKidsAppend | python/test2.py:90-91 | the loop over `a + b` lists all of `a`, each child's subtree complete, before `b` starts, and `b` sees everything `a` visited |
| Views.ListingLeaf | python/test2.py:85-87 | a childless node not yet visited lists exactly its own line and joins the visited set |
| Views.AppendNested | python/test2.py:90-91 | printing a child's listing after the parent's lines keeps every line hung below its parent line |
| FamilyTrees.FamilyTree.AppendPrinted | python/test2.py:90-91 | printing one more child subtree keeps what holds of the lines printed so far |
| FamilyTrees.FamilyTree.Roles | python/graphiz_visual.py:67-75 | `is_mother` holds p iff one of p's children has p as its mother; likewise `is_father` |
| FamilyTrees.FamilyTree.StyleNodes | python/graphiz_visual.py:78-91 | one node statement per node in dict order, coloured by its roles |
| FamilyTrees.FamilyTree.RankPairs | python/graphiz_visual.py:93-101 | the same-rank pairs are the parents of every node with both |
| FamilyTrees.FamilyTree.Edges | python/graphiz_visual.py:103-107 | the edges are one (parent, child) pair per non-None parent field |
| FamilyTrees.FamilyTree.VisualizeWithGraphviz | python/graphiz_visual.py:64-107 | the graph handed to graphviz: coloured nodes, same-rank pairs and edges, as above |
| FamilyTrees.FamilyTree.GenerationBuckets | python/custom_visual.py:94-96 | a bucket per kept generation that occurs (`>= 0` here, `!= -1` in python/test2.py:98-100), holding exactly its nodes in dict order |
| FamilyTrees.FamilyTree.FileByParents | python/test2.py:240-243 | each parent key's list holds exactly the nodes with that key; the key order is the keys of the input nodes at their first appearance, and every node is filed once |
| FamilyTrees.FamilyTree.BuildGroups | python/test2.py:245-251 | one group per key, in key order, with that key's children |
| FamilyTrees.FamilyTree.GroupParents | python/test2.py:240-251 | a partition: distinct keys in order of first appearance, each group holds exactly the nodes with its key, every node is in a group, and the sizes add up to the input |
| FamilyTrees.AddFiles | python/test2.py:290-309 | the first loop builds the dict of file nodes, in listing order of first stems |
| FamilyTrees.Built | python/test2.py:287-325 | the nodes and drain flag the pipeline returns; specified by BuiltShape and the contract of ParseMdFiles |
| FamilyTrees.ParseMdFiles | python/test2.py:287-325 | the whole pipeline: one node per stem with name == stem, a linked graph, and the generations of the bounded run |
| FamilyTrees.BuiltShape | python/graphiz_visual.py:113-146 | the result has a node iff some file has that stem, named by that stem |

## Left out

- File system access: the directory glob and `read_text` are left out. The input is the sequence of (stem, text) pairs the glob would yield, in its order.
- Float layout: `_calculate_positions` coordinates, `np.isfinite`/`norm` checks and all matplotlib drawing are left out. They are floating point and library calls.
- GroupParents: the final sort of the groups by the mean x-position of their parents is left out (floats). The groups come out in first-seen key order.
- Graphviz output: the `Digraph`, `subgraph` and `render` calls, the label text and the style attributes are left out. Only the node colours, same-rank pairs and edges are modelled. The invisible mother→father edge is the same-rank pair.
- PrintTree: the console output and its prefix strings are left out. Each printed line is a (level, id, name, generation) record.
- PrintTree: the shared `visited` set is passed in and handed back as `seen` rather than mutated in place.
- PrintTree: `visited or set()` replaces an empty set passed in by a fresh one. Only the top-level call can pass an empty set, so nothing observable changes.
- Object identity: nodes are identified by their dict key. The source's `is` and its set of node objects become comparisons of ids.
- Drain: the queue loop is bounded by `fuel` steps, because it need not terminate (SelfMotherNeverDrains). The model says nothing about runs longer than the bound.
- The unguarded copy has no non-termination lemma.
- `__main__` blocks and their hard-coded paths are left out.
- Whitespace: `\s` and `strip` use Python's `str.isspace` character set.
- Regular-expression engine: no Unicode normalisation or case folding is involved, since matching is literal and case-sensitive.
- SortByGenerationDesc: the contract states order and permutation but not stability. The function itself inserts stably, like Python's `sorted`.
