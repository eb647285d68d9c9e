# thewired namespace core, modelled in Dafny

thewired builds trees of Python objects ("namespace nodes") from dictionaries of
configuration and names every node by a namespace id (NSID): a dot-separated path such as
`.a.b.c` whose leading `.` is the root. This project models the core of that library:

- the NSID algebra (`thewired/namespace/nsid.py`): validation, sanitizing, child, parent,
  segments, common prefix, ancestry and base name;
- the reference helpers of `thewired/util.py` and the node base class
  `thewired/namespace/namespacenode/base.py`;
- `Namespace` and `NamespaceHandle` (`thewired/namespace/namespace.py`): `get`, `add`,
  `add_exactly_one`, `remove`, `walk` and `get_handle`;
- the configuration parser `thewired/namespaceconfigparser2.py`, with its factory helpers
  (`_create_factory`, `_dynamic`, `_dynamic_bases`, `_static`, `_params`);
- the legacy `NamespaceNode` (`thewired/namespace/namespacenode/namespacenode.py`) and its
  parser `thewired/namespaceconfigparser.py`;
- `mapped.py`, `nsidchainmap.py`, `filteredcollection.py`, `provider/providermap.py` and
  `provider/parametizedcall.py`.

How the model is built:

- Python values are the datatype `PyValues.Value`. A dict is an insertion-ordered
  sequence of key/value pairs, so the order of `dict.items()` is kept.
- A node tree is a table of nodes indexed by reference (`NamespaceSpec.Store`,
  `LegacyNodes.Heap`). An attribute that holds a node holds its reference.
- Every operation is first a function on such a value: `GetSpec`, `AddSpec`,
  `RemoveSpec`, `WalkSpec`, `Lookup`, `ParseSpec`, ….
- Classes (`Namespaces.Namespace`, `LegacyForests.Forest`, `ConfigParsers2.ConfigParser2`,
  `NsidChainMaps.NsidChainMap`, …) hold that value in a field. Their methods run the
  source's loops in place, and each method's `ensures` ties its result and new state to
  the function.
- Lemmas then state what the source promises about the functions: round trips,
  invariants kept, outcomes case by case, and "nothing else changes".
- Python exceptions are the error values of `Errors.Error`, carried by
  `Result`.
- Recursion that Python bounds only by its recursion limit takes a `fuel` parameter. When
  the fuel runs out, the result is `RecursionErr`.

## Model

| member | source | states |
|---|---|---|
| Text.JoinSplitOn | thewired/util.py:26 | joining the pieces of `s.split(sep)` with `sep` gives `s` back |
| Text.SplitJoin | thewired/namespace/nsid.py:185-186 | splitting on `.` the join of dot-free parts gives the parts back |
| Text.JoinSplit | thewired/namespace/nsid.py:185-186 | joining the parts of an id with `.` gives the id back |
| Text.SplitNoDot | thewired/namespace/nsid.py:185-186 | a string without a dot is its own single part |
| Text.SplitPartsDotFree | thewired/namespace/nsid.py:185-186 | no part of a split contains a dot |
| Text.JoinEmptyOnly | thewired/namespace/nsid.py:185-186 | a join is empty exactly when it joins the single empty part |
| Text.IdentifierHasNoDotOrSpace | thewired/namespace/nsid.py:110-111 | an identifier part holds neither a dot nor a space |
| Util.RefPrefixIsLinkPrefix | thewired/util.py:1-14 | the reference prefix is nsid.py's link prefix `nsid://`, and a string with the `nsid-ref://` prefix is not a reference |
| Util.NoPrefixGivesEmpty | thewired/util.py:18-26 | a string without the prefix refers to the empty id |
| Util.RefRoundTrip | thewired/util.py:3-26 | prefixing a prefix-free id makes a reference, and `get_nsid_from_ref` gives the id back |
| Util.SplitPrefixed | thewired/util.py:26 | splitting a string made of prefix-free pieces, each after the prefix, gives the empty text before the first prefix and then the pieces |
| Util.RepeatedPrefixDeleted | thewired/util.py:18-26 | every occurrence of the prefix is deleted, for any number of pieces: the id named is the pieces glued together |
| Util.TwoPrefixesDeleted | thewired/util.py:18-26 | `nsid://a` followed by `nsid://b` names `a + b` |
| Util.SplitOnAbsent | thewired/util.py:26 | splitting on a separator that does not occur gives the string itself |
| Util.LinkValidity | thewired/namespace/nsid.py:97-98 | a link `nsid://` + id is judged by the validity of the id as a fully-qualified id; with symbolic references allowed, a link to a qualified id is valid (is_valid_nsid_link, lines 123-127) |
| Nsids.CheckParts | thewired/namespace/nsid.py:100-117 | the part-by-part loop's verdict is that only the first part may be empty and every other part is an identifier |
| Nsids.MakeNsid | thewired/namespace/nsid.py:46-57 | `Nsid(s)` succeeds exactly when `s` is a valid relative id, and it then wraps `s` unchanged |
| Nsids.QualifiedValidity | thewired/namespace/nsid.py:78-120 | with `fully_qualified` set, the empty string raises IndexError and any other string is valid exactly when it is `.` or `.` followed by identifiers joined by dots |
| Nsids.RelativeNoDotValidity | thewired/namespace/nsid.py:78-120 | a relative id with no dot is valid exactly when it has no space |
| Nsids.QualifiedIsValid | thewired/namespace/nsid.py:78-120 | a fully-qualified id is valid in every mode |
| Nsids.IdentifierIsValid | thewired/namespace/nsid.py:78-120 | a single identifier is a valid relative id |
| Nsids.QualifiedHasNoSpace | thewired/namespace/nsid.py:91-93 | a fully-qualified id contains no space |
| Nsids.QualifiedExample | thewired/namespace/nsid.py:78-120 | `.a.b` is a valid fully-qualified id |
| Nsids.TrailingDotExample | thewired/namespace/nsid.py:78-120 | `.a.` is invalid: its last part is empty |
| Nsids.RejectedExamples | thewired/namespace/nsid.py:78-120 | `a.` and `.a b c.` are invalid fully-qualified ids |
| Nsids.RelativeExamples | thewired/namespace/nsid.py:78-120 | `a.b.c` is a valid relative id |
| Nsids.DoubleDotExample | thewired/namespace/nsid.py:46-57 | `Nsid("x..y..z")` raises, because an inner part is empty |
| Nsids.SanitizeNoDoubleDot | thewired/namespace/nsid.py:135-154 | after sanitizing no two dots are adjacent |
| Nsids.SanitizeClean | thewired/namespace/nsid.py:135-154 | a string without adjacent dots is left unchanged |
| Nsids.SanitizeIdempotent | thewired/namespace/nsid.py:135-154 | sanitizing twice is sanitizing once |
| Nsids.SanitizeKeepsNonDots | thewired/namespace/nsid.py:135-154 | sanitizing keeps every character that is not a dot, in order |
| Nsids.SanitizeKeepsHead | thewired/namespace/nsid.py:135-154 | sanitizing keeps the first character |
| Nsids.MakeChildQualified | thewired/namespace/nsid.py:157-171 | the child of a qualified id under an identifier is qualified, and its parts are the parent's parts followed by the identifier |
| Nsids.BasenameOfChild | thewired/namespace/nsid.py:268-271 | the base name of a child id is the child's name |
| Nsids.ParentDropsParts | thewired/namespace/nsid.py:174-182 | the `n`-th parent of a qualified id is qualified and keeps all but the last `n` parts, or is `.` when nothing else would remain |
| Nsids.ParentOfChild | thewired/namespace/nsid.py:157-182 | the parent of a child id is the parent it was made from |
| Nsids.ParentRejectsRelative | thewired/namespace/nsid.py:174-182 | the empty id raises IndexError and a relative id raises InvalidNsidError |
| Nsids.QualifiedSegments | thewired/namespace/nsid.py:188-198 | `.` is its own single segment; any other qualified id lists `.` and then its names, or only its names when the root is skipped |
| Nsids.SegmentsRebuild | thewired/namespace/nsid.py:157-198 | building child ids from `.` over the segments of a qualified id gives the id back |
| Nsids.ChildChainRebuilds | thewired/namespace/nsid.py:157-171 | building child ids from a prefix of a qualified id over its remaining parts gives the whole id |
| Nsids.PrefixIdStep | thewired/namespace/nsid.py:157-171 | the child of the id of the first `k` parts under part `k` is the id of the first `k + 1` parts |
| Nsids.PrefixIdWhole | thewired/namespace/nsid.py:185-186 | the id of all the parts of a qualified id is the id, and splitting it gives the parts back |
| Nsids.CommonPrefixLen | thewired/namespace/nsid.py:207-211 | the count of leading parts two ids share: the prefixes agree and the next parts differ |
| Nsids.CommonPrefixLenUnique | thewired/namespace/nsid.py:207-211 | any count whose prefixes agree and whose next parts differ is that count |
| Nsids.CommonPrefixNoneIff | thewired/namespace/nsid.py:200-215 | there is no common prefix exactly when the first parts differ |
| Nsids.FindCommonPrefix | thewired/namespace/nsid.py:200-215 | the counting loop returns the join of the shared leading parts, or None |
| Nsids.StripCommonPrefixParts | thewired/namespace/nsid.py:232-251 | each id keeps exactly its parts after the shared ones; with no common prefix, calling `split` on None raises AttributeError |
| Nsids.StripCommonPrefixLoops | thewired/namespace/nsid.py:232-251 | the list-building loops compute the stripped pair |
| Nsids.KeepFrom | thewired/namespace/nsid.py:238-248 | the index-filtering loop keeps the parts from index `m` on |
| Nsids.StripPrefixId | thewired/namespace/nsid.py:232-251 | stripping a qualified id's own prefix leaves its remaining parts |
| Nsids.TailSegments | thewired/namespace/nsid.py:188-198 | the remaining parts of a qualified id, joined, list back as those parts |
| Nsids.GetNsidAncestry | thewired/namespace/nsid.py:254-265 | the loop returns the ids of the first 1, 2, … parts |
| Nsids.AncestryEndsAtId | thewired/namespace/nsid.py:254-265 | the ancestry has one entry per part and ends at the id itself |
| Nsids.AncestryOfQualified | thewired/namespace/nsid.py:254-265 | the ancestry of a qualified id starts at `.` and each entry is the child of the previous one |
| Nsids.AncestorIsPrefixId | thewired/namespace/nsid.py:254-265 | entry `i` of the ancestry is the id of the first `i + 1` parts |
| Nsids.ListNsidSegments | thewired/namespace/nsid.py:188-198 | without `skip_root` there is always at least one segment |
| Nsids.ChildOfIsMakeChild | thewired/namespace/nsid.py:157-171 | for a qualified parent and an identifier child, `make_child_nsid` gives the child under the root as `.child` and under any other id as `parent.child` |
| Nsids.PrefixIdChild | thewired/namespace/nsid.py:157-171 | the child of an ancestor id by the next part is the next ancestor id |
| Nsids.PrefixIdQualified | thewired/namespace/nsid.py:254-265 | every ancestor id of a qualified id is qualified, and each one below the root splits into exactly the leading parts |
| Nsids.PrefixIdDistinct | thewired/namespace/nsid.py:254-265 | a proper ancestor id differs from the id itself |
| NodeBase.KwargAttrs | thewired/namespace/namespacenode/base.py:41-48 | the keyword arguments become exactly the node's attributes, apart from the reserved names |
| NodeBase.MakeNode | thewired/namespace/namespacenode/base.py:41-50 | making a node succeeds exactly when its id is valid, and the error is otherwise InvalidNsidError; the node keeps the id, the namespace and the attributes |
| NodeBase.MakeNodeKeeps | thewired/namespace/namespacenode/base.py:41-50 | a node made from a valid id carries that id and every keyword attribute |
| NodeBase.MakeNodeRejects | thewired/namespace/namespacenode/base.py:49 | ids with a space or an empty inner part are refused |
| NamespaceSpec.Step | thewired/namespace/namespace.py:101-106 | one `getattr` step reaches a child whose id is the child id, or fails with NamespaceLookupError or AttributeError |
| NamespaceSpec.Descend | thewired/namespace/namespace.py:94-108 | a node the segment loop reaches has the requested id |
| NamespaceSpec.GetSpec | thewired/namespace/namespace.py:83-108 | a node `get` finds is in the namespace and has the requested id |
| NamespaceSpec.Follow | thewired/namespace/namespace.py:101-107 | following names only moves to later nodes; its errors are the lookup and attribute errors |
| NamespaceSpec.Deepest | thewired/namespace/namespace.py:134-142 | the deepest existing ancestor found is a node of the namespace |
| NamespaceSpec.Missing | thewired/namespace/namespace.py:134-142 | the search for the first missing name finds none exactly when the path is all there; when it finds one, everything before that name is there and that step is NamespaceLookupError |
| NamespaceSpec.Link | thewired/namespace/namespace.py:168 | linking a new node gives it the next fresh reference and keeps the root |
| NamespaceSpec.Attach | thewired/namespace/namespace.py:145-171 | the creation loop creates one node per remaining segment |
| NamespaceSpec.AddSpec | thewired/namespace/namespace.py:112-171 | a successful `add` returns at least one created node |
| NamespaceTheory.HeadQualified | thewired/namespace/namespace.py:72-79 | an id that passes the head check and is a valid id is empty or fully qualified |
| NamespaceTheory.HeadRejects | thewired/namespace/namespace.py:72-79 | `get` and `add` refuse an id that does not start with `.`, with InvalidNsidError and no change |
| NamespaceTheory.GetIsFollow | thewired/namespace/namespace.py:83-108 | `get` of a qualified id follows its names from the root |
| NamespaceTheory.GetRoot | thewired/namespace/namespace.py:91-95 | `get(".")` is the root |
| NamespaceTheory.GetFindsOnlyQualified | thewired/namespace/namespace.py:83-108 | only a fully-qualified id can be found, and the node found has that id |
| NamespaceTheory.GetPrefix | thewired/namespace/namespace.py:83-108 | `get` of the id of the first `k` parts follows the first `k - 1` names |
| NamespaceTheory.DeepestIsMissing | thewired/namespace/namespace.py:134-142 | the ancestry scan stops at the same node as the search for the first missing name |
| NamespaceTheory.FollowExtends | thewired/namespace/namespace.py:145-171 | adding nodes never changes where an existing path leads |
| NamespaceTheory.AttachIsChain | thewired/namespace/namespace.py:145-171 | the creation loop links a chain of fresh nodes, the last one made by the given factory and the others by the default factory |
| NamespaceTheory.ChainValid | thewired/namespace/namespace.py:145-171 | the chain of created nodes keeps the tree invariant |
| NamespaceTheory.ChainClasses | thewired/namespace/namespace.py:150-166 | every created node belongs to the namespace; only the last one has the requested class |
| NamespaceTheory.ChainEdges | thewired/namespace/namespace.py:168-169 | each created node is the attribute of the previous one under the next segment |
| NamespaceTheory.ChainFollow | thewired/namespace/namespace.py:145-171 | after the loop, following the segments from the deepest ancestor reaches each created node in turn |
| NamespaceLaws.AddViaMissing | thewired/namespace/namespace.py:112-171 | `add` of a qualified id other than `.` is decided by the first missing name on its path |
| NamespaceLaws.GetsFromFollows | thewired/namespace/namespace.py:83-108 | nodes reached by following names are what `get` of the matching ids returns |
| NamespaceLaws.ChainOutcome | thewired/namespace/namespace.py:145-171 | after the loop, `get` of each created id finds the matching created node |
| NamespaceLaws.AncestorsBefore | thewired/namespace/namespace.py:134-142 | the ancestors before the first missing one are found by `get`, and the first missing one is NamespaceLookupError |
| NamespaceLaws.AddCreatesMissing | thewired/namespace/namespace.py:112-171 | `add` creates exactly the missing ancestors and the id itself, each found by `get` afterwards |
| NamespaceLaws.AddIsChain | thewired/namespace/namespace.py:134-171 | `add` links the chain of nodes below the deepest existing ancestor |
| NamespaceLaws.AddOutcome | thewired/namespace/namespace.py:112-171 | `add` of a qualified id: an existing node is a collision; a missing one adds exactly the missing ancestors and the id; an attribute that is not a node raises AttributeError with no change |
| NamespaceLaws.AddRootCollides | thewired/namespace/namespace.py:112-142 | `add(".")` and `add("")` report a collision |
| NamespaceLaws.AddKeepsValid | thewired/namespace/namespace.py:112-171 | `add` keeps the tree invariant, only adds nodes, and changes nothing when it fails |
| NamespaceRemoval.Detach | thewired/namespace/namespace.py:226 | `delattr` removes the attribute and keeps every node |
| NamespaceRemoval.DetachValid | thewired/namespace/namespace.py:226 | removing an attribute keeps the tree invariant |
| NamespaceRemoval.RemoveKeepsValid | thewired/namespace/namespace.py:212-227 | `remove` keeps the tree invariant and the nodes' ids, and only removes attributes |
| NamespaceRemoval.ParentIsPrefixId | thewired/namespace/namespace.py:221-222 | the parent `remove` looks up is the id less its last part |
| NamespaceRemoval.LastName | thewired/namespace/namespace.py:224 | stripping the parent's id from the id leaves the last part |
| NamespaceRemoval.DetachHides | thewired/namespace/namespace.py:212-227 | after removal the parent is still there and `get` of the id is NamespaceLookupError |
| NamespaceRemoval.RemoveUnfold | thewired/namespace/namespace.py:212-227 | `remove` is `delattr` of the last part on the parent |
| NamespaceRemoval.RemoveNoParent | thewired/namespace/namespace.py:221-222 | when the parent cannot be reached, `remove` and `get` fail with the same error and nothing changes |
| NamespaceRemoval.RemoveAbsent | thewired/namespace/namespace.py:224-225 | removing a missing child raises AttributeError and changes nothing |
| NamespaceRemoval.RemovePresent | thewired/namespace/namespace.py:212-227 | removing a present attribute detaches it and returns the node, or the data held there |
| NamespaceRemoval.MissingAt | thewired/namespace/namespace.py:134-142 | the search for the first missing name stops at the first missing step |
| NamespaceRemoval.RemoveAfterLink | thewired/namespace/namespace.py:212-227 | removing a node just linked under its parent returns that node and leaves it orphaned |
| NamespaceRemoval.GetIgnoresOrphan | thewired/namespace/namespace.py:83-108 | a node no attribute points at is invisible to `get` |
| NamespaceRemoval.AddLinksLast | thewired/namespace/namespace.py:112-169 | an `add` whose parent exists and whose last part is missing links one new node, with the child id and the factory's attributes, under the parent, and returns only it |
| NamespaceRemoval.RemoveUndoesAdd | thewired/namespace/namespace.py:112-227 | `remove` after an `add` that created one node returns that node, and `get` then answers every id as before the `add` |
| NamespaceSingle.SegmentsOfParts | thewired/namespace/namespace.py:194 | the segments `add_exactly_one` walks are the names of the id |
| NamespaceSingle.ParentCheckFollows | thewired/namespace/namespace.py:195-202 | the parent check passes when the parent is reachable; a missing parent is ValueError, and other errors pass through |
| NamespaceSingle.AddAtParent | thewired/namespace/namespace.py:112-171 | `add` below an existing parent: a node already there collides, data there raises AttributeError, otherwise exactly one node is linked |
| NamespaceSingle.AddExactlyOneOutcome | thewired/namespace/namespace.py:175-209 | `add_exactly_one` fails before any change when the parent is missing (ValueError) or unreachable; below the parent it collides, raises AttributeError, or creates exactly one node |
| NamespaceWalk.WalkReaches | thewired/namespace/namespace.py:230-253 | a path is in the walk exactly when following it reaches a node and it avoids hidden names |
| NamespaceWalk.WalkFromRoot | thewired/namespace/namespace.py:230-253 | the walk's only top key is `.`, and below it lie exactly the reachable visible paths |
| NamespaceWalk.WalkKeysAreBasenames | thewired/namespace/namespace.py:246-247 | each key of the walk is the base name of the child node it describes |
| NamespaceWalk.FollowQualified | thewired/namespace/namespace.py:83-108 | every node reached from a qualified node has a qualified id |
| NamespaceWalk.WalkEntriesAll | thewired/namespace/namespace.py:246-252 | a node's walk is the dictionary of its node-valued attributes, each walked recursively |
| Namespaces.Namespace.constructor | thewired/namespace/namespace.py:36-48 | a new namespace holds only the root `.`, made by the default factory |
| Namespaces.Namespace.Get | thewired/namespace/namespace.py:83-108 | the segment loop computes `get` |
| Namespaces.Namespace.Add | thewired/namespace/namespace.py:112-171 | the ancestry and creation loops compute `add`, keep the tree invariant, and change nothing on failure |
| Namespaces.Namespace.FindDeepest | thewired/namespace/namespace.py:134-142 | the ancestry loop finds the deepest existing ancestor |
| Namespaces.Namespace.AttachSegments | thewired/namespace/namespace.py:145-171 | the creation loop links the chain of new nodes |
| Namespaces.Namespace.AddExactlyOne | thewired/namespace/namespace.py:175-209 | computes `add_exactly_one` and keeps the tree invariant |
| Namespaces.Namespace.Remove | thewired/namespace/namespace.py:212-227 | computes `remove`, keeps the invariant, every node and its id |
| Namespaces.Namespace.Walk | thewired/namespace/namespace.py:230-253 | the recursive walk computes the nested dictionary of the tree |
| Namespaces.Namespace.WalkFrom | thewired/namespace/namespace.py:246-252 | the loop over a node's attributes builds that node's walk |
| Namespaces.Namespace.GetHandle | thewired/namespace/namespace.py:256-276 | returns a fresh handle on the node at the key, adding the key first when asked |
| Namespaces.GetHandleSpec | thewired/namespace/namespace.py:256-276 | `get_handle` keeps the tree invariant |
| Namespaces.NamespaceHandle.constructor | thewired/namespace/namespace.py:287-290 | the handle's root is the node `get(prefix)` returns |
| Namespaces.NamespaceHandle.Get | thewired/namespace/namespace.py:302-307 | `get(".")` is `get(prefix)`; any other id is looked up with the prefix in front |
| Namespaces.NamespaceHandle.Add | thewired/namespace/namespace.py:310-312 | `add` runs on the namespace with the prefix in front of the id |
| Namespaces.NamespaceHandle.Remove | thewired/namespace/namespace.py:315-317 | `remove` runs on the namespace with the prefix in front of the id |
| Namespaces.NamespaceHandle.AddExactlyOne | thewired/namespace/namespace.py:175-209 | `add_exactly_one` runs on the namespace with ids seen through the handle |
| Namespaces.NamespaceHandle.Walk | thewired/namespace/namespace.py:230-253 | a handle's walk is keyed by the prefix's base name and holds the walk of its root |
| NamespaceHandles.AddThenGet | thewired/namespace/namespace.py:83-171 | after a successful `add`, `get` of the id finds the last node created |
| NamespaceHandles.GetHandleOutcome | thewired/namespace/namespace.py:256-276 | an existing key gives a handle and changes nothing; a missing key is NamespaceLookupError unless `create_nodes` is set, and then a node with that id is added |
| NamespaceHandles.HandleAddThenGet | thewired/namespace/namespace.py:302-312 | a node added through a handle is found by the handle's `get` |
| NamespaceHandles.RootHandleRejects | thewired/namespace/namespace.py:302-312 | as written, a handle on `.` turns `.a` into `..a`, which `get` and `add` refuse with InvalidNsidError |
| NamespaceHandles.HandleId | thewired/namespace/namespace.py:302-307 | the corrected id mapping: `.` maps to the prefix, and any other id is appended to a non-root prefix |
| NamespaceHandles.RootHandleAsNamespace | thewired/namespace/namespace.py:302-307 | with the corrected mapping, a handle on `.` acts exactly like the namespace, and nothing changes for any other prefix |
| Mapped.GetAttrOutcome | thewired/namespace/namespacenode/mapped.py:23-42 | a missing or falsy entry raises AttributeError, a callable entry gives what calling it returns, a provider entry gives what its `provide()` returns or raises, and a non-empty string gives None when it is a valid fully-qualified id and is otherwise returned raw |
| Mapped.FalsyReadsAsMissing | thewired/namespace/namespacenode/mapped.py:25-28 | `''`, `0`, None and empty containers stored in the map read as missing |
| Mapped.StoredIds | thewired/namespace/namespacenode/mapped.py:33-40 | a stored id such as `.a.b` reads as None, and plain text is returned as stored |
| Mapped.IntEntryRaises | thewired/namespace/namespacenode/mapped.py:33 | as written, a truthy int entry reaches `is_valid_nsid_str`, which indexes it and raises TypeError; the corrected rule returns the int |
| Mapped.GetAttrIntended | thewired/namespace/namespacenode/mapped.py:23-42 | the corrected rule: AttributeError for a missing or falsy entry, and otherwise only when a provider raises it. A callable gives its result, a provider what `provide()` returns or raises, and any other entry that is not a string is returned raw |
| Mapped.IntendedExtendsWritten | thewired/namespace/namespacenode/mapped.py:23-42 | the corrected rule agrees with the written one wherever the written one returns. It raises nothing but the AttributeError of a missing entry and what a provider raises |
| NsidChainMaps.ChainFind | thewired/nsidchainmap.py:64-75 | the scan of the chained maps finds nothing exactly when no chained map holds the key |
| NsidChainMaps.NsidChainMap.constructor | thewired/nsidchainmap.py:23-34 | the local dictionary and the map ids are the ones given |
| NsidChainMaps.NsidChainMap.Get | thewired/nsidchainmap.py:48-80 | `chainmap[key]` is the local entry, else the first chained map's entry, else KeyError |
| NsidChainMaps.NsidChainMap.Set | thewired/nsidchainmap.py:84-95 | `chainmap[key] = value` sets the key in the local dictionary only |
| NsidChainMaps.NsidChainMap.Delete | thewired/nsidchainmap.py:100-105 | `del chainmap[key]` removes a local key; a key not held locally raises KeyError and changes nothing |
| NsidChainMaps.LocalFirst | thewired/nsidchainmap.py:59-61 | a key in the local dictionary is answered from it, whatever the chained maps hold |
| NsidChainMaps.FirstMapWins | thewired/nsidchainmap.py:64-75 | the first chained map that holds the key gives the value |
| NsidChainMaps.AbsentEverywhere | thewired/nsidchainmap.py:38-44 | a key held nowhere raises KeyError |
| NsidChainMaps.SetThenGet | thewired/nsidchainmap.py:48-95 | after setting a key, reading it gives the value and every other key reads as before |
| NsidChainMaps.DeleteUncovers | thewired/nsidchainmap.py:48-105 | after deleting a local key, the chained maps answer for it again |
| ProviderMaps.InitData | thewired/provider/providermap.py:37-63 | a falsy mapping gives an empty map; a truthy value that is not a mapping raises ValueError; a mapping is adopted only when all its values are None, and otherwise raises TypeError |
| ProviderMaps.FirstProvider | thewired/provider/providermap.py:47-53 | the check over the values raises TypeError at the first value that is not None |
| ProviderMaps.InitAccepts | thewired/provider/providermap.py:42-63 | the constructor accepts exactly the falsy values and the mappings of Nones |
| ProviderMaps.ProviderMap.constructor | thewired/provider/providermap.py:21-63 | a new provider map holds the data the constructor adopts, and the namespace and fail-up settings given |
| ProviderMaps.ProviderMap.Get | thewired/provider/providermap.py:143-150 | `provider_map[key]` raises ProviderMapLookupError exactly when the key is missing or holds the fail canary, and otherwise returns the stored value |
| ProviderMaps.ProviderMap.SetProvider | thewired/provider/providermap.py:100-118 | a provider or an id is stored under the key; only a NamespaceLookupError from resolving a stored id is swallowed; anything else raises ProviderError and changes nothing |
| ProviderMaps.ProviderMap.GetProvider | thewired/provider/providermap.py:122-133 | `get_provider` resolves the stored value as `GetProviderSpec` does: a provider is returned, an id is looked up, and KeyError or NamespaceLookupError becomes ProviderError |
| ProviderMaps.ProviderMap.SetProviderNamespace | thewired/provider/providermap.py:136-139 | replaces the provider namespace and keeps the data |
| ProviderMaps.SetThenGetProvider | thewired/provider/providermap.py:112-127 | after storing a provider, `get_provider` returns it |
| ProviderMaps.SetIdThenGetProvider | thewired/provider/providermap.py:100-133 | an unknown id is accepted when it is stored, and reported as ProviderError when the provider is asked for |
| ProviderMaps.GetProviderFailure | thewired/provider/providermap.py:122-133 | `get_provider` raises ProviderError exactly when the key is missing or the lookup of its id raises KeyError, ProviderMapLookupError (a KeyError), NamespaceLookupError or ProviderError |
| ProviderMaps.GetProviderPassesOthers | thewired/provider/providermap.py:122-133 | any other exception of the id's lookup escapes unchanged |
| FilteredCollections.Selected | thewired/filteredcollection.py:83-99 | the filtered view holds exactly the items that pass every filter, and no more items than the collection |
| FilteredCollections.FilterSelected | thewired/filteredcollection.py:96-97 | applying one more filter to the view is the view under the longer filter list |
| FilteredCollections.SelectedNone | thewired/filteredcollection.py:93-99 | with no filters the view is the whole collection, in order |
| FilteredCollections.ChainedIsSelected | thewired/filteredcollection.py:93-99 | chaining `filter` once per filter gives the view |
| FilteredCollections.SelectedAppend | thewired/filteredcollection.py:62-99 | appending an item extends the view by that item exactly when it passes every filter |
| FilteredCollections.At | thewired/filteredcollection.py:51-58 | indexing the view succeeds exactly for indices from `-len` to `len - 1` and gives an item of the view; any other index raises IndexError |
| FilteredCollections.Chars | thewired/filteredcollection.py:144-145 | extending the results by a string adds its characters one by one |
| FilteredCollections.CanaryIsLong | thewired/filteredcollection.py:8-10 | every fail canary is a string of more than one character |
| FilteredCollections.CharsNoCanary | thewired/filteredcollection.py:8-10 | a one-character string is never a fail canary |
| FilteredCollections.SpreadCanariesNotCanaries | thewired/filteredcollection.py:127-147 | when every evaluation fails, the results hold only single characters and never a canary |
| FilteredCollections.AllFailuresNotReported | thewired/filteredcollection.py:143-158 | as written, an evaluation that fails on every item is returned as characters instead of raising; the corrected evaluation raises CollectiveEvalDelegateObjectError |
| FilteredCollections.FlattenIntended | thewired/filteredcollection.py:127-147 | with canaries kept whole, an all-failed evaluation gives one canary per item |
| FilteredCollections.AllCanariesKept | thewired/filteredcollection.py:150-158 | with canaries kept whole, evaluating a non-empty view where every item fails raises CollectiveEvalDelegateObjectError |
| FilteredCollections.OneSuccessSuffices | thewired/filteredcollection.py:150-160 | results that hold anything other than a canary are returned as they are |
| FilteredCollections.FilteredCollection.constructor | thewired/filteredcollection.py:21-47 | a non-empty collection is shared; an absent or empty one is replaced by a fresh empty list; the filters are kept |
| FilteredCollections.FilteredCollection.FilteredView | thewired/filteredcollection.py:83-99 | the filter loop computes the view |
| FilteredCollections.FilteredCollection.Length | thewired/filteredcollection.py:73-78 | `len` is the length of the view |
| FilteredCollections.FilteredCollection.Get | thewired/filteredcollection.py:51-58 | indexing reads the view |
| FilteredCollections.FilteredCollection.Append | thewired/filteredcollection.py:62-69 | `append` adds the item to the underlying collection, and the view grows by it exactly when it passes every filter |
| FilteredCollections.FilteredCollection.CollectiveEvaluate | thewired/filteredcollection.py:103-160 | the evaluation loop and the canary check compute `collective_eval` over the view |
| ParametizedCalls.IsParamCallMap | thewired/provider/parametizedcall.py:19-26 | a map is a parameter map exactly when its only key is `__params__` |
| ParametizedCalls.ChainGet | thewired/provider/parametizedcall.py:52-55 | a ChainMap lookup returns a value held by one of the maps, and raises KeyError exactly when no map holds the key |
| ParametizedCalls.ParamsShape | thewired/provider/parametizedcall.py:49-58 | `get_params` returns the method name from `defaults`, and a chain of kwargs without `_params` first and the defaults without `method_name` last. The set `_params` names sits between them exactly when `_params` is truthy. The name `defaults` there gives the defaults after the pop, so without the method name |
| ParametizedCalls.ParamsPrecedence | thewired/provider/parametizedcall.py:49-58 | kwargs win over the named set, and the named set wins over the defaults. A key found in none of them raises KeyError. `_params` is never seen from kwargs. `method_name` raises KeyError unless kwargs holds it or a set other than `defaults` is named |
| ParametizedCalls.ShapedChainPrecedence | thewired/provider/parametizedcall.py:52-58 | the same precedence holds for any chain of that shape |
| ParametizedCalls.ParamsWithoutSet | thewired/provider/parametizedcall.py:51-53 | without `_params` the chain is the kwargs over the defaults |
| ParametizedCalls.UnknownSetRaises | thewired/provider/parametizedcall.py:53-55 | a truthy `_params` that names no set raises KeyError |
| ParametizedCalls.DerefItems | thewired/provider/parametizedcall.py:160-171 | every reference in a sequence is resolved and every other item kept, in order; the first failure is raised |
| ParametizedCalls.DerefItemsFail | thewired/provider/parametizedcall.py:160-171 | the first item that fails to resolve decides the error |
| ParametizedCalls.QuotedItems | thewired/provider/parametizedcall.py:145-154 | each string item is written in single quotes, with no separator |
| ParametizedCalls.ItemsTextFails | thewired/provider/parametizedcall.py:145-152 | the first mapping item without the key raises; the handler's use of an undefined `log` makes that a NameError |
| ParametizedCalls.SequenceOfStrings | thewired/provider/parametizedcall.py:134-157 | a list of plain strings is written as `[`, each item quoted, `]` |
| ParametizedCalls.TwoStrings | thewired/provider/parametizedcall.py:134-157 | `['a', 'b']` is written `['a''b']` |
| ParametizedCalls.Entries | thewired/provider/parametizedcall.py:93-122 | one entry per parameter, in the map's order |
| ParametizedCalls.EntriesFail | thewired/provider/parametizedcall.py:93-122 | the first parameter that fails to render decides the error |
| ParametizedCalls.ScalarEntries | thewired/provider/parametizedcall.py:118-122 | a string that is not a reference is written `k = 's'`, and an int is written bare |
| ParametizedCalls.MappingEntries | thewired/provider/parametizedcall.py:107-116 | a mapping contributes its entry for the key, and a missing key raises KeyError when it is needed |
| ParametizedCalls.ChopTwo | thewired/provider/parametizedcall.py:126 | `s[0:-2]` removes the last two characters |
| ParametizedCalls.ChopAccumulated | thewired/provider/parametizedcall.py:93-126 | chopping the accumulated `entry, ` texts gives the entries joined by `, ` |
| ParametizedCalls.EmptyParams | thewired/provider/parametizedcall.py:126-128 | with no parameters the addendum is `.method()` |
| ParametizedCalls.ParametizedCall.constructor | thewired/provider/parametizedcall.py:61-69 | keeps the resolver, the method name and the parameter map |
| ParametizedCalls.ParametizedCall.DerefSequenceItems | thewired/provider/parametizedcall.py:160-171 | the loop computes the resolved sequence |
| ParametizedCalls.ParametizedCall.StringifySequence | thewired/provider/parametizedcall.py:134-157 | the loop computes the sequence's text |
| ParametizedCalls.ParametizedCall.Entry | thewired/provider/parametizedcall.py:94-122 | one loop turn computes the entry of one parameter |
| ParametizedCalls.ParametizedCall.MakeAddendum | thewired/provider/parametizedcall.py:72-130 | the accumulate-then-chop loop returns `.method(` + the entries joined by `, ` + `)` |
| ParametizedCalls.ParametizedCall.Call | thewired/provider/parametizedcall.py:174-175 | calling the object is `make_addendum` with the key needed |
| ParametizedCalls.ItemsTextPrefixFails | thewired/provider/parametizedcall.py:145-152 | the first item whose text fails decides the error of the whole sequence |
| ParametizedCalls.EntriesPrefixFail | thewired/provider/parametizedcall.py:93-122 | the first parameter whose entry fails decides the error of the whole addendum |
| LegacyNodes.InitialIdClean | thewired/namespace/namespacenode/namespacenode.py:112-128 | an explicit id is stored with no double dot, and sanitizing it again leaves it unchanged |
| LegacyNodes.Name | thewired/namespace/namespacenode/namespacenode.py:72 | `_name` is a single dot-free part of the id |
| LegacyNodes.NameIsLastPart | thewired/namespace/namespacenode/namespacenode.py:72 | the `_name` of `parent.name` is `name` |
| LegacyNodes.Attrs | thewired/namespace/namespacenode/namespacenode.py:109 | the keyword arguments become attributes, under exactly their own names |
| LegacyNodes.NewNode | thewired/namespace/namespacenode/namespacenode.py:51-109 | a new node gets a fresh reference and the sanitized id, the keyword attributes and an empty iteration record; it is its own root when its id is `.` or `is_nsroot` is set, and otherwise has the root it was given; every other node is unchanged |
| LegacyNodes.InternalAttr | thewired/namespace/namespacenode/namespacenode.py:51-109 | reading a member that every node has yields an object of the current heap |
| LegacyNodes.GetattrObj | thewired/namespace/namespacenode/namespacenode.py:321 | `getattr` returns the stored item when the name is an attribute; otherwise it returns a class member or raises AttributeError, and it raises nothing else |
| LegacyNodes.AddItemHere | thewired/namespace/namespacenode/namespacenode.py:433-459 | setting a single name keeps the heap well formed and allocates no node |
| LegacyNodes.AddItemPath | thewired/namespace/namespacenode/namespacenode.py:414-472 | a dotted add only extends the heap; its only error is AttributeError, raised for a path that runs through a value |
| LegacyNodes.AddChildSpec | thewired/namespace/namespacenode/namespacenode.py:132-152 | `_add_child` allocates exactly one new node |
| LegacyNodes.AddItemSingle | thewired/namespace/namespacenode/namespacenode.py:433-459 | with a single name the item is set when the name is absent or `overwrite` is given, and is recorded for iteration when `iter` is set; otherwise nothing changes |
| LegacyNodes.SetItemReplaces | thewired/namespace/namespacenode/namespacenode.py:404-410 | `_set_item` always replaces the attribute, leaves the iteration record unchanged and touches no other node |
| LegacyNodes.FreshChildShape | thewired/namespace/namespacenode/namespacenode.py:463-467 | the child created for a missing first part has the child id and root, is attached under that part for iteration, and changes no other node |
| LegacyNodes.FreshStep | thewired/namespace/namespacenode/namespacenode.py:461-472 | adding below a missing first part is adding the rest into the freshly created child |
| LegacyNodes.AddItemBelowEmpty | thewired/namespace/namespacenode/namespacenode.py:461-472 | below a node with no attributes, any path is created and the item is then reached along it |
| LegacyNodes.AddItemCreatesPath | thewired/namespace/namespacenode/namespacenode.py:461-472 | a missing first part becomes a new child, with the child id and root, recorded for iteration, and the item is reached along the whole path |
| LegacyNodes.AddItemDescends | thewired/namespace/namespacenode/namespacenode.py:463-471 | an existing child node under the first part is descended into |
| LegacyNodes.AddChildAttaches | thewired/namespace/namespacenode/namespacenode.py:132-152 | `_add_child` always builds the node; it attaches it under `name` unless the name exists and `overwrite` is off, in which case the parent is unchanged |
| LegacyNodes.ChildIds | thewired/namespace/namespacenode/namespacenode.py:145-149 | the child id is the name appended directly under a node that is its own root, and joined with `.` under any other node |
| LegacyLookups.RootOf | thewired/namespace/namespacenode/namespacenode.py:346-350 | symbolic references start from the root, or from the node itself when it has none |
| LegacyLookups.RootLookupMethod | thewired/namespace/namespacenode/namespacenode.py:312-315 | calling `lookup` on the root raises AttributeError when the root has no such attribute. A callable there gives its result, and a provider gives what it returns or raises for the id and `follow_symrefs`. Any result is an object of the current heap |
| LegacyLookups.Lookup | thewired/namespace/namespacenode/namespacenode.py:285-332 | a found object belongs to the current heap |
| LegacyLookups.Walk | thewired/namespace/namespacenode/namespacenode.py:318-332 | each step is a `getattr`; a link met on the way is resolved from the root |
| LegacyLookups.LookupSymRef | thewired/namespace/namespacenode/namespacenode.py:336-364 | following references never ends on a reference |
| LegacyLookups.FollowRefs | thewired/namespace/namespacenode/namespacenode.py:357-361 | the loop stops at the first object that is not a reference, and returns a non-reference unchanged |
| LegacyLookups.WalkFindsReach | thewired/namespace/namespacenode/namespacenode.py:318-332 | without following links, walking a path finds exactly the item reached through the attributes; a broken path is NamespaceLookupError |
| LegacyLookups.LookupRelative | thewired/namespace/namespacenode/namespacenode.py:308-332 | a relative dotted id whose first part is not the root's id is resolved attribute by attribute from the node |
| LegacyLookups.WalkStopsAtRef | thewired/namespace/namespacenode/namespacenode.py:321-330 | a reference met during the walk is handed to `_lookup_symbolic_ref`; an AttributeError there becomes NamespaceLookupError |
| LegacyLookups.QualifiedFromRoot | thewired/namespace/namespacenode/namespacenode.py:312-315 | in the corrected reading, a qualified id is looked up from the root with the root's own part dropped |
| LegacyLookups.QualifiedAsWrittenFails | thewired/namespace/namespacenode/namespacenode.py:312-315 | as written, a qualified id raises AttributeError whenever the root has no attribute `lookup` |
| LegacyLookups.QualifiedAsWrittenProvider | thewired/namespace/namespacenode/namespacenode.py:312-315 | as written, a provider stored as the root's `lookup` answers a qualified id. It is asked for the id without its first part, with the caller's `follow_symrefs` |
| LegacyLookups.TopValid | thewired/namespace/namespacenode/namespacenode.py:51-109 | the example root `top` holding `a = 1` is a well-formed heap |
| LegacyLookups.QualifiedAsWrittenExample | thewired/namespace/namespacenode/namespacenode.py:312-315 | as written, `top._lookup('top.a')` raises AttributeError |
| LegacyLookups.QualifiedIntendedExample | thewired/namespace/namespacenode/namespacenode.py:312-315 | in the corrected reading, `top._lookup('top.a')` returns 1 |
| LegacyLookups.TopFromRoot | thewired/namespace/namespacenode/namespacenode.py:312-315 | the qualified lookup of `top.a` is the lookup of `a` from the root |
| LegacyLookups.TopBareName | thewired/namespace/namespacenode/namespacenode.py:316-321 | a bare name is looked up by walking from the node |
| LegacyLookups.TopWalk | thewired/namespace/namespacenode/namespacenode.py:318-332 | walking `a` from `top` returns 1 |
| LegacyLookups.QualifiedLookupExample | thewired/namespace/namespacenode/namespacenode.py:285-332 | the qualified lookup example differs between the as-written and the corrected readings |
| LegacyLookups.AllSpec | thewired/namespace/namespacenode/namespacenode.py:476-494 | `_all` has one entry per recorded item, in insertion order, each holding that item |
| LegacyLookups.Shaped | thewired/namespace/namespacenode/namespacenode.py:476-494 | entries are the items paired with their ids when `nsids` is set, and the bare items otherwise |
| LegacyLookups.SetItemAppends | thewired/namespace/namespacenode/namespacenode.py:433-459 | recording a name that is not yet recorded appends it at the end |
| LegacyLookups.AllAppend | thewired/namespace/namespacenode/namespacenode.py:476-494 | one more recorded item is one more entry at the end of `_all` |
| LegacyLookups.AllAfterAdd | thewired/namespace/namespacenode/namespacenode.py:414-494 | `_add_item` of a new name with `iter` appends that item, under its full id, to `_all` |
| LegacyLookups.AllAfterSet | thewired/namespace/namespacenode/namespacenode.py:404-494 | `_set_item` leaves `_all` unchanged |
| LegacyLookups.EmptyChildNoLeaves | thewired/namespace/namespacenode/namespacenode.py:518-547 | a child node with no recorded items contributes no leaf |
| LegacyLookups.FlatLeaves | thewired/namespace/namespacenode/namespacenode.py:518-547 | when a node's recorded items are all values, its leaves are exactly its `_all` entries |
| LegacyLookups.FlatNodeLeaves | thewired/namespace/namespacenode/namespacenode.py:476-547 | `_list_leaves` of a node whose items are all values equals `_all` |
| LegacyLookups.LeavesAreValues | thewired/namespace/namespacenode/namespacenode.py:518-547 | every leaf is a value, never a node |
| LegacyLookups.LeavesOfAreValues | thewired/namespace/namespacenode/namespacenode.py:518-547 | every leaf found among the recorded items is a value |
| LegacyLookups.FirstMismatch | thewired/namespace/namespacenode/namespacenode.py:386-395 | it returns the first index where the new id's parts leave this node's, and returns none exactly when the new id's parts are a prefix of this node's |
| LegacyLookups.FirstMismatchFrom | thewired/namespace/namespacenode/namespacenode.py:386-395 | scanning from a matched prefix returns the first mismatch, or none exactly when the whole id matches |
| LegacyLookups.AddNsSpec | thewired/namespace/namespacenode/namespacenode.py:368-400 | a successful `_add_ns` only extends the heap |
| LegacyLookups.AddNsRefusesAncestors | thewired/namespace/namespacenode/namespacenode.py:386-395 | `_add_ns` raises ValueError exactly for a node whose id parts are a prefix of this node's id parts |
| LegacyLookups.AddNsChild | thewired/namespace/namespacenode/namespacenode.py:397-400 | `_add_ns` of a direct child by id is `_add_item` under its last part |
| LegacyForests.PrependLeavesTwice | thewired/namespace/namespacenode/namespacenode.py:518-547 | putting the leaves of two items in front, one after the other, is putting their concatenation in front |
| LegacyForests.LeavesOfCons | thewired/namespace/namespacenode/namespacenode.py:518-547 | the leaves of a record are the first item's leaves followed by the leaves of the rest |
| LegacyForests.Forest.constructor | thewired/namespace/namespacenode/namespacenode.py:51-109 | a new forest holds no node |
| LegacyForests.Forest.NewNamespaceNode | thewired/namespace/namespacenode/namespacenode.py:51-109 | constructing a node is `NewNode` |
| LegacyForests.Forest.AddItemHereM | thewired/namespace/namespacenode/namespacenode.py:433-459 | setting one name is `AddItemHere` |
| LegacyForests.Forest.AttachFreshChild | thewired/namespace/namespacenode/namespacenode.py:463-467 | creating the missing child is `FreshChild` and returns the new reference |
| LegacyForests.Forest.Descend | thewired/namespace/namespacenode/namespacenode.py:461-472 | the node reached through the first part continues the add, exactly as the specification continues it; a value under the first part is AttributeError and changes nothing |
| LegacyForests.Forest.AddItemAt | thewired/namespace/namespacenode/namespacenode.py:414-472 | the recursive add succeeds exactly when `AddItemPath` does, with the same new heap; on AttributeError the children created before it stay |
| LegacyForests.Forest.AddItem | thewired/namespace/namespacenode/namespacenode.py:414-472 | `_add_item` follows `AddItemSpec` |
| LegacyForests.Forest.SetItem | thewired/namespace/namespacenode/namespacenode.py:404-410 | `_set_item` follows `SetItemSpec` |
| LegacyForests.Forest.AddChild | thewired/namespace/namespacenode/namespacenode.py:132-152 | `_add_child` follows `AddChildSpec` and returns the new node |
| LegacyForests.Forest.Lookup | thewired/namespace/namespacenode/namespacenode.py:285-332 | the method returns `Lookup`: a link resolved first, the fully qualified case, then the walk |
| LegacyForests.Forest.WalkPath | thewired/namespace/namespacenode/namespacenode.py:318-332 | the loop over the path returns `Walk` from the node itself |
| LegacyForests.Forest.LookupSymbolicRef | thewired/namespace/namespacenode/namespacenode.py:336-364 | the method returns `LookupSymRef` |
| LegacyForests.Forest.FollowSymbolicRefs | thewired/namespace/namespacenode/namespacenode.py:358-364 | the follow loop returns `FollowRefs` |
| LegacyForests.Forest.All | thewired/namespace/namespacenode/namespacenode.py:476-494 | the loop over `_ns_items` returns `AllSpec` |
| LegacyForests.Forest.ListLeaves | thewired/namespace/namespacenode/namespacenode.py:518-547 | the recursive traversal returns `Leaves` |
| LegacyForests.Forest.AddNs | thewired/namespace/namespacenode/namespacenode.py:368-400 | the prefix-matching loop and the add follow `AddNsSpec`, errors included |
| LegacyForests.AddThenLookup | thewired/namespace/namespacenode/namespacenode.py:285-472 | after `_add_item` of a new dotted relative id, `_lookup` of the same id returns the item |
| LegacyParsers.DictCopy | thewired/namespaceconfigparser.py:127 | `dict(v)` of a mapping is that mapping; every other success is a mapping too; a list is read as key/value pairs, an empty string gives `{}`, any other string a ValueError and any other value a TypeError |
| LegacyParsers.PairsFirstFailure | thewired/namespaceconfigparser.py:127 | `dict()` of a list fails with the error of its first element that is not a key/value pair |
| LegacyParsers.PairsSucceed | thewired/namespaceconfigparser.py:127 | `dict()` of a list whose every element is a pair succeeds |
| LegacyParsers.PairsAllPairs | thewired/namespaceconfigparser.py:127 | conversely, a list that `dict()` accepts has a pair in every element |
| LegacyParsers.PairsKeepOthers | thewired/namespaceconfigparser.py:127 | a key that no pair names keeps the value it held before |
| LegacyParsers.PairsLastWins | thewired/namespaceconfigparser.py:127 | a key holds the value of the last pair that names it |
| LegacyParsers.DictOfPairs | thewired/namespaceconfigparser.py:127 | `dict([['a', 1]])` is `{'a': 1}`; with `'a2'` after it the later pair wins and gives `{'a': '2'}`; a one-item list is a ValueError and a non-iterable element a TypeError |
| LegacyParsers.SubmapSpec | thewired/namespaceconfigparser.py:90-150 | with no current node it raises ValueError; a value without `keys()` raises AttributeError; a success only extends the heap |
| LegacyParsers.EntriesSpec | thewired/namespaceconfigparser.py:123-148 | the loop over the keys only extends the heap |
| LegacyParsers.EntrySpec | thewired/namespaceconfigparser.py:126-148 | one key only extends the heap |
| LegacyParsers.SingleEntry | thewired/namespaceconfigparser.py:123-148 | a one-key mapping is parsed as its one entry |
| LegacyParsers.RootSpec | thewired/namespaceconfigparser.py:74-84 | each round makes a new root with the prefixed id and the parser's root, and only extends the heap |
| LegacyParsers.RootMadeKept | thewired/namespaceconfigparser.py:74-84 | a root made in one round is still there, unchanged in id and root, after later rounds |
| LegacyParsers.RootMadeEarlier | thewired/namespaceconfigparser.py:74-84 | a root made after earlier rounds is new with respect to the starting heap |
| LegacyParsers.RootsSnoc | thewired/namespaceconfigparser.py:74-87 | appending one round's root keeps what was proved about the roots made before it |
| LegacyParsers.ScalarKeepsExisting | thewired/namespaceconfigparser.py:143-148 | a plain value is set on the current node and recorded only when the name is absent; an existing attribute is kept |
| LegacyParsers.RawNeedsParent | thewired/namespaceconfigparser.py:126-132 | `__raw__` with no parent node raises NamespaceConfigParsingError |
| LegacyParsers.MappingBecomesChild | thewired/namespaceconfigparser.py:134-141 | a mapping value becomes a new child with the child id, attached only when the name is absent, and is parsed into that child with the current node as parent |
| LegacyParsers.RawOnChild | thewired/namespaceconfigparser.py:126-129 | `__raw__` in a child's mapping sets a copy of its value on the parent under the child's name, overwriting |
| LegacyParsers.RawReplacesChild | thewired/namespaceconfigparser.py:126-141 | `{key: {'__raw__': d}}` leaves `d` under `key` on the node, in place of the child made for it |
| LegacyParsers.Parser.constructor | thewired/namespaceconfigparser.py:45-60 | the parser keeps its root and its prefix |
| LegacyParsers.Parser.ParseSubmap | thewired/namespaceconfigparser.py:90-150 | the loop follows `SubmapSpec`, errors included |
| LegacyParsers.Parser.ParseEntry | thewired/namespaceconfigparser.py:126-148 | one key follows `EntrySpec` |
| LegacyParsers.Parser.ParseRaw | thewired/namespaceconfigparser.py:126-132 | the raw-marker key follows `EntrySpec`: a failed `dict()` copy or a missing previous node raises, otherwise the copy is added to the previous node under the current node's name |
| LegacyParsers.Parser.ParseNested | thewired/namespaceconfigparser.py:134-141 | a mapping value follows `EntrySpec`: a new child node is added and the mapping is parsed into it; when that raises, what was built stays and extends the old heap |
| LegacyParsers.Parser.ParseRoot | thewired/namespaceconfigparser.py:74-84 | one round follows `RootSpec` |
| LegacyParsers.Parser.Parse | thewired/namespaceconfigparser.py:64-87 | a value without `keys()` raises AttributeError; on success there is one new root per top-level key, in key order, with the prefixed id and the parser's root |
| ConfigFactories.StaticSpec | thewired/namespaceconfigparser2.py:280-338 | the static factory is the default or a callable found in a loaded module or in the parser's own module; its only error is ValueError |
| ConfigFactories.BasesSpec | thewired/namespaceconfigparser2.py:227-276 | each base name resolves, in order, to what one round gives it; a failure means some name failed |
| ConfigFactories.Iterate | thewired/namespaceconfigparser2.py:245 | iterating a list gives its items, and iterating a string gives one item per character |
| ConfigFactories.MakeType | thewired/namespaceconfigparser2.py:216 | `type(name, bases, dict)` raises TypeError unless the name is a string, the body a mapping and every base a class; given those it gives the class synthesized from them (the layout checks of `type()` are not modelled, see below) |
| ConfigFactories.DynamicSpec | thewired/namespaceconfigparser2.py:203-222 | a dynamic factory, when there is one, is a synthesized class |
| ConfigFactories.Call | thewired/namespaceconfigparser2.py:400 | calling the partial builds an instance of its class with its keyword arguments; `object()` with keyword arguments raises TypeError |
| ConfigFactories.CreateFactorySpec | thewired/namespaceconfigparser2.py:135-165 | a value without `keys()` gives no factory, and a mapping that parses gives one |
| ConfigFactories.ParamValue | thewired/namespaceconfigparser2.py:395-406 | a keyword argument is its configured value, unless that value is a mapping with a meta key, which is built into an instance |
| ConfigFactories.TypeBeforeClass | thewired/namespaceconfigparser2.py:169-198 | a complete `__type__` that resolves wins over `__class__` |
| ConfigFactories.IncompleteTypeFallsBack | thewired/namespaceconfigparser2.py:203-222 | a `__type__` lacking `name`, `bases` or `dict` is a KeyError, swallowed, so the static parse decides |
| ConfigFactories.TypeNotMappingFails | thewired/namespaceconfigparser2.py:206-209 | a `__type__` that is not a mapping raises TypeError |
| ConfigFactories.NoMetaIsDefault | thewired/namespaceconfigparser2.py:298-309 | without `__type__` or `__class__` the default factory is used |
| ConfigFactories.ClassPathImports | thewired/namespaceconfigparser2.py:298-331 | a dotted `__class__` path imports its module part: an unknown module falls back to the default, a missing or non-callable symbol raises ValueError, and otherwise the symbol is the factory |
| ConfigFactories.BareClassFromHere | thewired/namespaceconfigparser2.py:311-331 | a `__class__` name without a dot is looked up in the parser's own module |
| ConfigFactories.BareBaseFromPackage | thewired/namespaceconfigparser2.py:253-273 | a base name without a dot is looked up in the package `thewired` |
| ConfigFactories.InitCopies | thewired/namespaceconfigparser2.py:392-406 | with no nested object descriptions, the `__init__` loop copies the mapping |
| ConfigFactories.ParamsVerbatim | thewired/namespaceconfigparser2.py:342-410 | an `__init__` mapping with no nested object descriptions is passed unchanged as the keyword arguments |
| ConfigFactories.ParamsNeedInitMapping | thewired/namespaceconfigparser2.py:368-385 | a missing `__init__`, or one without `keys()`, gives no keyword argument |
| ConfigFactories.GatherStep | thewired/namespaceconfigparser2.py:392-406 | one more `__init__` key adds its argument and keeps the ones before it |
| ConfigFactories.InitGathers | thewired/namespaceconfigparser2.py:392-410 | a successful loop gives one argument per key: plain values as they are, object descriptions as instances |
| ConfigFactories.ParamsShape | thewired/namespaceconfigparser2.py:342-410 | the keyword arguments are exactly the `__init__` keys, each with its plain value or a built instance |
| ConfigFactories.NestedDefaultsToObject | thewired/namespaceconfigparser2.py:397-400 | an object described without `__class__` or `__type__` is a bare `object()`; keyword arguments of its own raise TypeError |
| ConfigParsers2.Subscript | thewired/namespaceconfigparser2.py:117 | `dictConfig[key]` succeeds exactly when the value is a mapping with the key, and gives the value under it |
| ConfigParsers2.AttachKeepsRoot | thewired/namespace/namespace.py:145-171 | creating missing nodes keeps the root |
| ConfigParsers2.AddKeepsRoot | thewired/namespace/namespace.py:112-171 | `add` keeps the root |
| ConfigParsers2.AddOneKeeps | thewired/namespace/namespace.py:175-209 | `add_exactly_one` keeps the namespace well formed, loses nothing and keeps the root |
| ConfigParsers2.ParseSpec | thewired/namespaceconfigparser2.py:78-131 | a value without `keys()` returns None and changes nothing; a successful parse returns the namespace; the namespace only grows |
| ConfigParsers2.KeysSpec | thewired/namespaceconfigparser2.py:104-128 | the loop over the snapshot of the keys only grows the namespace |
| ConfigParsers2.KeySpec | thewired/namespaceconfigparser2.py:115-128 | one key only grows the namespace |
| ConfigParsers2.ParseBelow | thewired/namespaceconfigparser2.py:122-125 | parsing below the new node only grows the namespace |
| ConfigParsers2.KeysSkipScalars | thewired/namespaceconfigparser2.py:104-128 | keys that are meta keys or hold values without `keys()` add nothing |
| ConfigParsers2.KeySkipsScalar | thewired/namespaceconfigparser2.py:117-119 | a value without `keys()` gives no factory, so no node is added |
| ConfigParsers2.ScalarsMakeNoNodes | thewired/namespaceconfigparser2.py:78-131 | a configuration with no nested mapping returns the namespace unchanged |
| ConfigParsers2.ParseIgnoresTargets | thewired/namespaceconfigparser2.py:104-108 | with identity mutators, the callback targets do not change the outcome of a parse |
| ConfigParsers2.KeysIgnoreTargets | thewired/namespaceconfigparser2.py:104-108 | with identity mutators, the loop does not depend on the targets |
| ConfigParsers2.KeyRoundIgnoresTargets | thewired/namespaceconfigparser2.py:104-125 | with identity mutators, a round on a key that is not a meta key, and the rounds after it, do not depend on the targets |
| ConfigParsers2.KeyIgnoresTargets | thewired/namespaceconfigparser2.py:115-128 | with identity mutators, one key does not depend on the targets |
| ConfigParsers2.BelowIgnoresTargets | thewired/namespaceconfigparser2.py:124-125 | with identity mutators, the recursive parse does not depend on the targets |
| ConfigParsers2.ChildIdQualified | thewired/namespace/nsid.py:157-171 | the id of a key that is an identifier, under the empty prefix or an id, is a fully qualified id other than the root |
| ConfigParsers2.AddOneIsAdd | thewired/namespace/namespace.py:175-209 | on the whole namespace, a successful `add_exactly_one` is an `add` that created exactly one node, and returns that node |
| ConfigParsers2.AddOneAttrs | thewired/namespace/namespace.py:145-171 | the node `add_exactly_one` creates has the factory's class and exactly the factory's keyword arguments, other than the reserved names, as attributes |
| ConfigParsers2.AddOneFinds | thewired/namespace/namespace.py:83-209 | after `add_exactly_one`, `get` finds the new node, built by the factory's class |
| ConfigParsers2.GetKept | thewired/namespace/namespace.py:83-108 | what `get` finds stays found, unchanged, as the namespace grows |
| ConfigParsers2.MadeKept | thewired/namespaceconfigparser2.py:104-128 | a node made for a key stays in the namespace through later keys, with its class and its `__init__` parameters |
| ConfigParsers2.BuiltKept | thewired/namespaceconfigparser2.py:104-128 | a node's class and keyword attributes survive any extension of the namespace |
| ConfigParsers2.MadeTreeKept | thewired/namespaceconfigparser2.py:104-128 | the nodes of a whole configuration tree stay made as the namespace grows |
| ConfigParsers2.MadeBelowKept | thewired/namespaceconfigparser2.py:104-128 | a key's node and the tree below it stay made as the namespace grows |
| ConfigParsers2.KeyMakes | thewired/namespaceconfigparser2.py:115-125 | a successful round on a node key makes its node, built by its factory's class and holding its `__init__` parameters |
| ConfigParsers2.KeyTree | thewired/namespaceconfigparser2.py:115-125 | a successful round on a node key makes its node and, through the recursive `parse`, the tree of its value below the key's id |
| ConfigParsers2.KeysTree | thewired/namespaceconfigparser2.py:104-128 | after a successful loop, every node key from the current position on has its node and its subtree |
| ConfigParsers2.MetaRoundTree | thewired/namespaceconfigparser2.py:104-115 | a round on a meta key makes nothing and leaves the rest of the loop to build the trees of the later keys |
| ConfigParsers2.KeyRoundTree | thewired/namespaceconfigparser2.py:104-128 | a round on any other key builds its tree when it is a node key, and the later rounds build theirs without undoing it |
| ConfigParsers2.ParsedKeysFound | thewired/namespaceconfigparser2.py:78-131 | after a successful parse of a configuration whose keys, at no depth, trigger the mutator, every identifier key holding a mapping, at every depth, has a node that `get(make_child_nsid(prefix, key))` finds, with the parent key's id as the prefix; the node was built by the class its factory names and holds each `__init__` parameter as data; the recursion limit bounds the depth, and a parse that goes deeper fails |
| ConfigParsers2.BasesStep | thewired/namespaceconfigparser2.py:245-273 | resolving bases is resolving the first, then the rest |
| ConfigParsers2.KeysStepMeta | thewired/namespaceconfigparser2.py:115 | a round on a meta key moves on to the next key |
| ConfigParsers2.KeysStepKey | thewired/namespaceconfigparser2.py:115-128 | a round on any other key is that key's parse, followed by the remaining keys unless it failed |
| ConfigParsers2.PrependMore | thewired/namespaceconfigparser2.py:243-276 | putting resolved bases in front twice is putting their concatenation in front |
| ConfigParsers2.ConfigParser2.constructor | thewired/namespaceconfigparser2.py:28-74 | the parser keeps its factory and targets; it uses the identity mutator when none is given, and a new `Namespace()` when no namespace is given |
| ConfigParsers2.ConfigParser2.ResolveBases | thewired/namespaceconfigparser2.py:227-276 | the loop returns `BasesSpec` |
| ConfigParsers2.ConfigParser2.ResolveBase | thewired/namespaceconfigparser2.py:246-273 | one round imports the module part, falls back to `thewired` on a ValueError, and returns the symbol or a ValueError when it is missing, as `BaseSpec` states |
| ConfigParsers2.ConfigParser2.DynamicFactory | thewired/namespaceconfigparser2.py:203-222 | returns `DynamicSpec` |
| ConfigParsers2.ConfigParser2.FactoryFunction | thewired/namespaceconfigparser2.py:169-198 | returns `FactoryFunctionSpec` |
| ConfigParsers2.ConfigParser2.CreateFactory | thewired/namespaceconfigparser2.py:135-165 | returns `CreateFactorySpec` |
| ConfigParsers2.ConfigParser2.ParseParams | thewired/namespaceconfigparser2.py:342-410 | the loop over the `__init__` keys returns `ParamsSpec` |
| ConfigParsers2.ConfigParser2.AddOne | thewired/namespaceconfigparser2.py:120-122 | adds through the target's `add_exactly_one`, as `AddExactlyOneSpec` does |
| ConfigParsers2.ConfigParser2.Parse | thewired/namespaceconfigparser2.py:78-131 | the namespace and the result are `ParseSpec`'s |
| ConfigParsers2.ConfigParser2.ParseKeys | thewired/namespaceconfigparser2.py:103-128 | the loop over the snapshot of the keys leaves the namespace and the result of `KeysSpec` from the first key |
| ConfigParsers2.ConfigParser2.ParseRound | thewired/namespaceconfigparser2.py:104-128 | one round of the loop is one step of `KeysSpec` |
| ConfigParsers2.ConfigParser2.ParseKey | thewired/namespaceconfigparser2.py:115-128 | one key follows `KeySpec` |
| ConfigParsers2.ConfigParser2.ParseAdded | thewired/namespaceconfigparser2.py:122-125 | the recursive step follows `ParseBelow` |

## Left out

- `thewired/provider/addendumformatter.py` is not part of this model: it builds strings and runs them with `eval`, and it finds formatters with `importlib`.
- `import_module`, `sys.modules` and `type()` in `namespaceconfigparser2.py` are replaced by `ConfigFactories.Registry`, a table of the modules that can be imported and the kind of each symbol in them. A synthesized class is the value `Synthesized(name, bases, dict)`; its methods and its metaclass are not modelled.
- `_create_node_factory_param_object` (`namespaceconfigparser2.py:414-460`) is not modelled: it is unfinished and nothing calls it.
- The `setattr(new_node, key, value)` branch of `parse` (`namespaceconfigparser2.py:126-128`) cannot be reached. A value that is not a mapping gets no factory, so no node is added for it, and `ConfigParsers2.KeySkipsScalar` states this.
- Reflection and proxying are left out:
  - `NamespaceNode.__getattr__`, `__call__` and `__dir__`, with their provider-map logic;
  - the `_nsroot` setter that propagates the root to children;
  - `NamespaceNodeDelegator`;
  - `Namespace.__getattr__`;
  - the root swapping in `NamespaceHandle.__getattr__`.

  A legacy node answers `getattr` only from its attributes and from the fixed set of member names that every node has (`LegacyNodes.InternalAttr`).
- `_validate_default_node_factory` is a precondition: every factory passed to a namespace is taken to build a `NamespaceNodeBase`.
- Thin wrappers are left out: `handle.py`, `delegate.py`, `callable.py`, `dunders.py` and `aliasnode.py`. So is `secondlife.py`, whose import fails. So is `namespacenodebase.py`, a superseded copy of `base.py`.
- Mapped: the constructor of `MappedAttributesNode` is not modelled, because it calls the base constructor without its required namespace. Only the attribute rule is modelled.
- `get_nsid_from_ref` of `nsid.py` is not modelled, because it refers to an undefined name. The version in `util.py` is modelled. `strip_schema` and `strip_prefix` are unused and left out.
- Text.IsIdentifier: `str.isidentifier` is taken over ASCII only (`[A-Za-z_][A-Za-z0-9_]*`). Unicode identifiers are refused.
- Only the default separator `.` is modelled. No caller in the core passes another separator.
- `cascading__getitem__` of `providermap.py` is not modelled: it refers to undefined names. A provider is the value `ProviderV(id)`. Calling it is a parameter `provide` of the operations that call it, given the id and the call's arguments. What a concrete provider returns or raises is not modelled.
- ProviderMaps.ProviderMap.constructor: the constructor only covers mappings it accepts. `ProviderMaps.InitData` gives the exceptions of the rest, including the TypeError that the one-argument `isinstance` raises for any value that is not None.
- NsidChainMaps.ChainFind: every chained id is taken to resolve, because `Get` requires a mapping for each id. When `nsroot._lookup` fails in the source, the loop goes on with the name `map` still bound to the mapping of an earlier id, or to the builtin `map` on the first id, which raises TypeError. That case is left out.
- FilteredCollections: `eval` of the expression string is a parameter `eval: Value -> Outcome`. `__getattr__`, `__deepcopy__` and `__str__` of the collection are left out. `__iter__` walks the view that `FilteredView` returns and has no member of its own.
- `str()` of an arbitrary object in `parametizedcall.py` is a parameter `str: Value -> string`. The text of ints and of the values it is applied to is not otherwise fixed. Dereferencing `nsid://` values through the node root is also a parameter.
- ParametizedCalls.GetParams: the deep copy keeps every parameter set a separate value. In the source, two set names bound to one dict object stay one object in the copy, so popping `method_name` from `defaults` also removes it under the other name. The model does this only for the name `defaults` itself.
- Trees are tables of records indexed by reference, not Python objects. Aliasing between a node and values that hold it outside the tree is not modelled. Neither is a node object's identity beyond its reference.
- Python's recursion limit is the `fuel` argument of every recursive operation. When the fuel runs out, the result is `RecursionErr`. The model does not fix the depth at which that happens.
- ConfigParsers2.Settings: the input mutator is a total function on values. A mutator that raises or changes state is not modelled.
- LegacyParsers.Parser.Parse: the whole-`parse` result is given per round (`ParseRoot` equals `RootSpec`), together with the loop's invariant on the roots made. There is no single function of the whole configuration.
- ConfigParsers2.ParsedKeysFound: it is proved for a parse into a whole namespace of a configuration whose keys, at every depth, leave the input mutator untriggered. For a parse through a handle, or one that the mutator rewrites, the model only proves that the parse keeps the namespace well formed and extends it.
- Logging, warnings and `print` are left out.
- Python dicts cannot hold a key twice. The model's insertion-ordered sequences of pairs can, and every lookup reads the first entry for a key.
- `collections.Mapping` and `collections.Sequence` are assumed to exist, as they do before Python 3.10. The source uses them only inside methods (`providermap.py:44`, `parametizedcall.py:102-146`, `namespacenode.py:75`). So on later versions those files still import, and the calls that reach these checks raise AttributeError.
- NodeBase.KwargAttrs: the keywords `nsid` and `namespace` are not refused. In the source they clash with the constructor's own parameters and raise TypeError. The model drops `nsid` and stores `namespace` as plain data.
- NodeBase.MakeNode: for the same reason it succeeds for a factory that binds `nsid` or `namespace`. In the source such a factory makes `add` raise TypeError through all three of its calls, unless it binds both, when the last call `node_factory()` builds a node with the bound id.
- NamespaceSpec.Step: the names every Python node carries (`nsid`, `_ns` and the dunder names) are not attributes in the model. A step by such a name fails with NamespaceLookupError, where the source finds the id object, the namespace or a class member.
- NamespaceSpec.GetSpec: for the same reason `get('.nsid')` is NamespaceLookupError here. In the source it reaches the root's id object, runs out of segments and raises NamespaceInternalError. `get('.__class__')` raises a bare AttributeError in the source.
- Namespaces.Namespace.Get: carries the gap of `NamespaceSpec.GetSpec` for those names.
- NamespaceSpec.AddSpec: `add('.nsid')` and other adds through those names create nodes here. In the source the ancestry scan propagates the NamespaceInternalError that `get` raises.
- Namespaces.Namespace.Add: carries the gap of `NamespaceSpec.AddSpec` for those names.
- Namespaces.Namespace.Add: the node factory and the `*args, **kwargs` passed to `add` are one `Factory` value, a class with its keyword arguments. Positional arguments are not modelled. In the source a node constructor that takes no extra positional arguments raises TypeError on them. The retries `node_factory(nsid, self)` and `node_factory()` then build the node without any of the extra arguments, keyword ones included.
- Namespaces.Namespace.AddExactlyOne: carries the same gap, since it passes `*args, **kwargs` on to `add`.
- Namespaces.Namespace.Remove: `remove('.a.nsid')` raises AttributeError here. In the source it deletes node `.a`'s own `nsid` attribute.
- LegacyNodes.GetattrObj: a stored plain value answers AttributeError for every name. Python values have attributes of their own, so in the source `_lookup('a.real')` on `a = 5` gives 5. The names `_nsid`, `_nsroot` and `_provider_map` are stored as plain attributes, so their property setters are not run.
- LegacyParsers.DictCopy: a pair whose key is a hashable non-string (an int, None or a bool) builds a dict in Python. The model's mappings have string keys, so it reports TypeError there. Iterables other than strings, lists and mappings are TypeError too.
- ConfigFactories.Call: calling an imported class always builds an instance. In the source the class's own constructor can raise, for instance `NamespaceNodeBase()` without its `nsid` and `namespace`. A synthesized class without bases given keyword arguments raises TypeError in the source; the model builds it.
- ConfigFactories.MakeType: `type()` also raises TypeError for duplicate bases and for bases whose layouts or metaclasses conflict. The model accepts any list of classes.
- FilteredCollections.FilteredCollection.constructor: the `collection_factory` argument is fixed to `list`. It builds both the empty collection and the empty filter list, and no other factory is modelled.
- ParametizedCalls.ItemsTextFails: a mapping item without the requested key raises NameError, because the code logs through the undefined name `log` (`parametizedcall.py:151`) before it can raise its own error. This is modelled as written.

## Findings

| source | as written | input that shows it | evidently intended | confidence | as-written member | corrected member |
|---|---|---|---|---|---|---|
| thewired/namespace/namespacenode/mapped.py:33 | a truthy entry that is neither callable nor a string is passed to `is_valid_nsid_str`, which indexes it with `v[0]` | the attribute map `{'n': 5}` and `node.n`: TypeError | values other than strings are returned unchanged | not executed | Mapped.IntEntryRaises | Mapped.GetAttrIntended |
| thewired/filteredcollection.py:143-158 | a caught exception's canary string is spread into its characters by `results.extend`, so the all-canaries test never holds when every evaluation raises | a non-empty view where the evaluation raises for every element: the characters of the canaries are returned and no error is raised | an evaluation that fails everywhere raises CollectiveEvalDelegateObjectError | not executed | FilteredCollections.AllFailuresNotReported | FilteredCollections.AllCanariesKept |
| thewired/namespace/namespacenode/namespacenode.py:312-315 | a fully qualified id is passed to `self._nsroot.lookup`, a method nodes do not have | a root `top` holding `a = 1` and `top._lookup('top.a')`: AttributeError | `self._nsroot._lookup(rest)` gives 1 | not executed | LegacyLookups.QualifiedAsWrittenExample | LegacyLookups.QualifiedIntendedExample |
| thewired/namespace/namespace.py:302-312 | a handle prepends its prefix to the id even when the prefix is the root `.` | `ns.get_handle('.').get('.a')` asks for `..a`: InvalidNsidError | a handle on the root reads ids as the namespace does | not executed | NamespaceHandles.RootHandleRejects | NamespaceHandles.RootHandleAsNamespace |

The legacy lookup takes a `RootCall` argument. `AsWritten(provide)` is the code as written, with `provide` standing for the providers it may call. `Intended` is the correction. `LegacyLookups.QualifiedFromRoot` proves the corrected behaviour for every qualified id. The `Namespaces.NamespaceHandle` class follows the code as written. `NamespaceHandles.HandleId` is the corrected mapping of ids.
