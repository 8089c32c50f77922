# Verified model of the GeoMapFish layer tree

This project models, in Dafny, the parts of the c2cgeoportal code base that build, change, publish and protect the tree of
themes, groups and layers, and proves what must be true of them.

* **Capabilities filter** (`Xml`, `Names`, `Pruning`, `FilterMachine`, `CapabilitiesFilter`, `PrunedDocument`, `LayerTrees`,
  `LayerDocuments`, `PrivateLayers`, `LeafVisibility`). A SAX filter removes private layers from a capabilities document while
  it streams by. It decides late: each open layer records actions and counts rejected children, and prints when the outermost
  layer closes. `Pruning` says the same by recursion on the document, `FilterMachine` is the machine on values, and
  `CapabilitiesFilter` is the object with its mutable layer records. The chain of results ends in `LeafPrintedExactly` and
  `FilterCapabilities`: which leaf layers a user sees.
* **Full-text index** (`ThemeTree`, `ThemeWalk`, `FullTextIndex`, `FullTextSkips`, `FullTextVisibility`, `FullTextImport`). The import skips
  roles and items that it can prove redundant. Skipping loses nothing, and the search finds what the user may see.
* **Editing and synchronizing the tree** (`TreeGraph`, `AncestorClosure`, `TreeEditing`, `ChildrenLists`, `SyncTree`,
  `SyncShape`, `SyncCounts`, `SyncAdded`, `SyncAcyclic`, `SyncOrdering`, `SyncDocuments`, `SyncFrame`, `SyncStored`, `SyncFixpoint`,
  `SyncRepeats`, `SyncSorting`, `SyncStable`, `SyncSettles`, `SyncLoaded`, `Synchronizer`). When the links have no cycle, what
  the order of children is, and exactly when a second synchronization changes nothing, on the objects in memory and on the
  database read anew.
* **OAuth2** (`OAuthValidator`, `OAuthRequests`, `OAuthServer`, `OAuthRuns`). The tables of codes and bearer tokens under runs of authorize,
  token, refresh and clock steps. The order of calls is that of sections 4.1 and 6 of RFC 6749 and section 4.6 of RFC 7636.
* **QGIS access control** (`QgisLayers`, `RoleKeys`, `QgisAccess`, `QgisServer`). Access from group ancestry and restriction
  areas, with its caches.
* **WMS time** (`WmsTime`, `WmsTimeLayers`). Merging the time information of the layers of a group.

`Wrappers` has the types of optional values and of results that all of them use.

Methods of the code that change objects or rows are methods of classes here; each is proved to do what a function says, and
the properties are proved of the functions.

Where a property does not hold of the code as it is, the exact condition is proved instead, with an example:

* The private name of an outermost layer hides what is inside only when it is written with the same case, since the structure
  of the WMS is looked up with exact names (`LeafPrintedExactly` through `UnderPrivate`, `OtherCaseShowsInside`).
* A style with a hidden name makes its layer count as rejected by the layer around it: nothing shows inside a layer, other
  than the outermost, that has such a style or holds only layers that count as rejected (`LeafPrintedExactly`,
  `StyleNameHidesGroup`).
* A layer with a style and no name of its own is not in the structure of the WMS, so a private name around it does not hide it;
  only the name of its style counts (`LeafPrintedExactly` in its second case, `LeafPrintedByTexts`, `NamelessShowsInside`).
* The parent given with a new or saved item can close a cycle (`StepAcyclic`, `GivenParentCanMakeCycle`).
* `force_parents` makes a cycle when a group is inside a group of the same name (`ForceParentsNoCycle`,
  `ForceParentsMakesCycle`), and `force_ordering` alone can make one with links that are already there
  (`ForceOrderingNoCycle`, `OrderingMakesCycle`).
* A second synchronization changes something when `force_ordering` is on alone and an item has a child that is linked twice,
  which the table allows, and is in the way (`SecondRunIff`). When the server gives this child, each run adds one more link
  (`NeverSettles`, `DoubledNeverSettles`).
* `force_ordering` numbers the children only when it changes their order. The rows of a new group all keep the ordering 0, so
  that its children may come in any order when they are loaded again, and a further run may then change them (`OrderStored`,
  `NewGroupUnordered`, `NeverChangesIff`, `NewGroupNotStored`).
* A client that requires a state and asks again for a user before it redeemed the first code cannot use the new state, since
  the row of the code keeps the first one (`TokenRequestIff`, `NewStateIsRefused`, `OldStateOnly`).
* Root may edit a layer that is not in the project (`EditNeedsUpdate`, `RootEditsUnknown`).
* The option `--duplicate-name` of the full-text import makes the name the key of an entry, so that items with the same name
  are indexed once (`geoportal/c2cgeoportal_geoportal/scripts/theme2fts.py:352`); its help text says the opposite. The model
  follows the code (`OnePerName`, `DuplicateNames`, `SameNameTwice`).

Assumptions: the strings that the OAuth2 server generates are new, clocks do not go backwards, and clients are not changed
during a run. Each request is one transaction: an error undoes it.

## Model

| member | source | states |
|---|---|---|
| `FilterMachine.FilterPrintsPruned` | `geoportal/c2cgeoportal_geoportal/lib/filter_capabilities.py:256-350` | on the event stream of any document the stack machine prints exactly the events of the recursively pruned document, and ends with an empty stack and `in_name` off |
| `FilterMachine.RunInside` | `geoportal/c2cgeoportal_geoportal/lib/filter_capabilities.py:261-320` | inside a layer, reading any forest has exactly the effect of its summary: the actions recorded, the counters and flags raised on the open layers, nothing printed |
| `FilterMachine.RunOutside` | `geoportal/c2cgeoportal_geoportal/lib/filter_capabilities.py:256-350` | outside of layers, reading any forest prints its pruned form at once |
| `FilterMachine.RecordedPrints` | `geoportal/c2cgeoportal_geoportal/lib/filter_capabilities.py:261-273` | what the deferred actions of a layer print when it is closed is the pruned form of what it read |
| `FilterMachine.OpenLayersOfPrefix` | `geoportal/c2cgeoportal_geoportal/lib/filter_capabilities.py:290-320` | in a well-nested stream the stack is never popped when empty, and is empty at the end of the document element |
| `FilterMachine.DeliversAll` | `geoportal/c2cgeoportal_geoportal/lib/filter_capabilities.py:352-353` | every event of the pruned document is delivered in its place with its text; all but white space, which comes as characters, unchanged |
| `Names.NormalizedName` | `geoportal/c2cgeoportal_geoportal/lib/filter_capabilities.py:374-383` | a text is compared as the lower case of the name that it stands for: the text itself, or what is between its first and its second colon, or the end |
| `Pruning.KeepsName` | `geoportal/c2cgeoportal_geoportal/lib/filter_capabilities.py:333-383` | a text of a Name is kept exactly when the lower case of the name that it stands for is not on the blacklist, or is on the whitelist |
| `Pruning.OneLayerShows` | `geoportal/c2cgeoportal_geoportal/lib/filter_capabilities.py:290-350` | a document with one layer, a text in some other element and its name is left as it is when the name may be shown, and otherwise nothing is left |
| `CapabilitiesFilter.CapabilitiesFilter.StartElement` | `geoportal/c2cgeoportal_geoportal/lib/filter_capabilities.py:290-307` | the callback changes the objects as the machine does on a start event |
| `CapabilitiesFilter.CapabilitiesFilter.EndElement` | `geoportal/c2cgeoportal_geoportal/lib/filter_capabilities.py:309-320` | the callback changes the objects as the machine does on an end event; the stack must not be empty for a layer |
| `CapabilitiesFilter.CapabilitiesFilter.StartElementNS` | `geoportal/c2cgeoportal_geoportal/lib/filter_capabilities.py:322-328` | a namespaced start is recorded by the innermost open layer or sent, and never opens a layer, whatever its name |
| `CapabilitiesFilter.CapabilitiesFilter.EndElementNS` | `geoportal/c2cgeoportal_geoportal/lib/filter_capabilities.py:330-331` | a namespaced end is recorded or sent, and never closes a layer |
| `CapabilitiesFilter.CapabilitiesFilter.ReadCharacters` | `geoportal/c2cgeoportal_geoportal/lib/filter_capabilities.py:333-350` | text inside a Name keeps or rejects the innermost layer and hides or unhides the open ones, as the machine does; text is collected before it is sent |
| `CapabilitiesFilter.CapabilitiesFilter.IgnorableWhitespace` | `geoportal/c2cgeoportal_geoportal/lib/filter_capabilities.py:352-353` | blanks are recorded or sent like other content |
| `CapabilitiesFilter.CapabilitiesFilter.ProcessingInstruction` | `geoportal/c2cgeoportal_geoportal/lib/filter_capabilities.py:355-356` | instructions are recorded or sent like other content |
| `CapabilitiesFilter.CapabilitiesFilter.CompleteTextNode` | `geoportal/c2cgeoportal_geoportal/lib/filter_capabilities.py:256-259` | collected text is sent once, as one text |
| `CapabilitiesFilter.CapabilitiesFilter.PrintChild` | `geoportal/c2cgeoportal_geoportal/lib/filter_capabilities.py:268-273` | a closed layer that shows sends exactly what its deferred actions print, and forgets them, so that no action is performed twice |
| `CapabilitiesFilter.CapabilitiesFilter.Handle` | `geoportal/c2cgeoportal_geoportal/lib/filter_capabilities.py:290-356` | one event of the parser changes the objects as one step of the machine |
| `CapabilitiesFilter.Filter` | `geoportal/c2cgeoportal_geoportal/lib/filter_capabilities.py:216-360` | on any well-nested stream the filter with its mutable layers, stack and accumulators prints the pruned document; text is left unsent only when no closing element follows it |
| `PrunedDocument.FilterSafety` | `geoportal/c2cgeoportal_geoportal/lib/filter_capabilities.py:261-350` | with no assumption on Name elements the output is well nested, a subsequence of the input, and equal to it outside of the layer elements; inside, whole layer elements are gone and nothing else |
| `LayerTrees.PrintedTreeIsTrim` | `geoportal/c2cgeoportal_geoportal/lib/filter_capabilities.py:261-350` | the rule on paths (a name counts unless an inner layer around it was rejected; a layer shows when its parent does, something inside is kept, and not all of its inner layers are rejected) and the recursive trimming agree |
| `LayerTrees.KeptIsKeptInside` | `geoportal/c2cgeoportal_geoportal/lib/filter_capabilities.py:338-350` | a layer unhides itself exactly when some counting name at or below it is kept |
| `LayerDocuments.PrunedLayers` | `geoportal/c2cgeoportal_geoportal/lib/filter_capabilities.py:216-350` | when names come before inner layers, the layers left in the pruned document are exactly those that show by the rule on paths |
| `PrivateLayers.ById` | `geoportal/c2cgeoportal_geoportal/lib/layers.py:94-145` | the dictionaries of private and of protected layers hold exactly the selected rows, each under its own id |
| `PrivateLayers.PrivateAndProtected` | `geoportal/c2cgeoportal_geoportal/lib/layers.py:94-145` | a row is among the private layers exactly when it is not public and of one of the servers, and among the protected ones exactly when one of its restriction areas has a role of the user besides |
| `PrivateLayers.StructureBuilder.Fill` | `geoportal/c2cgeoportal_geoportal/lib/filter_capabilities.py:96-102` | adds a name to the lists of all the named layers around it, and nothing else |
| `PrivateLayers.WmsStructure` | `geoportal/c2cgeoportal_geoportal/lib/filter_capabilities.py:94-105` | the structure is that of the contents, layer by layer |
| `PrivateLayers.StructureListsDescendants` | `geoportal/c2cgeoportal_geoportal/lib/filter_capabilities.py:94-105` | the structure lists under each name exactly the own names of the layers properly inside a layer with this name; layers without a name of their own are not listed |
| `PrivateLayers.PrivateNames` | `geoportal/c2cgeoportal_geoportal/lib/filter_capabilities.py:131-148` | the names to hide are those of the private layers that no role of the user shares, and the names that the structure lists under them |
| `LeafVisibility.LeafPrintedExactly` | `geoportal/c2cgeoportal_geoportal/lib/filter_capabilities.py:94-148` | with distinct plain names, each read in one piece before the style names of its layer: a leaf layer with a name shows exactly when neither it nor a layer around it has a name that is private for the user, one without a name exactly when its first style name is not hidden and no layer around it below the outermost has a hidden name; and in both cases every layer around it below the outermost has no style with a hidden name and a layer directly inside that is not rejected |
| `LeafVisibility.LeafPrintedIff` | `geoportal/c2cgeoportal_geoportal/lib/filter_capabilities.py:94-148` | its consequence when no style name is hidden: a leaf layer with a name shows exactly when neither it nor a layer around it has a private name |
| `LeafVisibility.LeafPrintedByTexts` | `geoportal/c2cgeoportal_geoportal/lib/filter_capabilities.py:94-148` | the exact condition for all documents whatever their names: a leaf layer shows exactly when its first name text is not hidden, and each layer around it below the outermost has no hidden name text and a layer directly inside without one; a text is hidden when the name that it stands for is, in any case, private or that of a layer inside a private one |
| `LeafVisibility.StyleNameHidesGroup` | `geoportal/c2cgeoportal_geoportal/lib/filter_capabilities.py:304-305` | a document in which a style with a hidden name makes its layer count as rejected, so that the group that holds only this layer does not show, nor the leaf inside |
| `LeafVisibility.OtherCaseShowsInside` | `geoportal/c2cgeoportal_geoportal/lib/filter_capabilities.py:131-148` | a document whose outermost layer has a private name, written in another case: the layer inside shows |
| `LeafVisibility.NamelessShowsInside` | `geoportal/c2cgeoportal_geoportal/lib/filter_capabilities.py:94-105` | a document whose outermost layer has a private name: the layer inside, which has a style but no name, shows |
| `LeafVisibility.PrivateNamesClosed` | `geoportal/c2cgeoportal_geoportal/lib/filter_capabilities.py:138-148` | the blacklist is closed downwards: it holds the private names and the own names of all layers inside layers with a private name |
| `LeafVisibility.FilterCapabilities` | `geoportal/c2cgeoportal_geoportal/lib/filter_capabilities.py:123-170` | the whole filtering for a user: the blacklist is closed, the output is the document pruned by it and, when the structure comes from the layers of this document with distinct plain names that come before those of styles, the named leaves in the output are exactly those that meet the condition of `LeafPrintedExactly` |
| `Names.Split` | `geoportal/c2cgeoportal_geoportal/lib/filter_capabilities.py:139` | the pieces of a name list hold no separator and join back to the text |
| `Names.SplitJoin` | `geoportal/c2cgeoportal_geoportal/lib/filter_capabilities.py:139` | joining pieces without separators and splitting again gives the same pieces |
| `ThemeTree.ExtractThemeRoles` | `geoportal/c2cgeoportal_geoportal/scripts/theme2fts.py:394-407` | the stack walk without a set of visited items collects exactly the roles that the theme is restricted to and, if it is public, those named by a restriction area of a layer inside that is not public |
| `ThemeTree.ShowsLikePublic` | `geoportal/c2cgeoportal_geoportal/scripts/theme2fts.py:409-438` | a role that no restriction area inside names sees exactly what everybody sees |
| `ThemeWalk.EndsIffNoCycleBelow` | `geoportal/c2cgeoportal_geoportal/scripts/theme2fts.py:394-407` | over any table of links, the stack walk ends exactly when no cycle is at or below the items on the stack |
| `ThemeWalk.EndsWithoutCycles` | `geoportal/c2cgeoportal_geoportal/scripts/theme2fts.py:394-407` | over a table without cycles the walk always ends |
| `ThemeWalk.CollectsNamed` | `geoportal/c2cgeoportal_geoportal/scripts/theme2fts.py:394-407` | a walk that ends has collected exactly the roles that restriction areas name of layers reached by links from the stack that are not public |
| `ThemeWalk.ExtractRoles` | `geoportal/c2cgeoportal_geoportal/scripts/theme2fts.py:394-407` | the loop over the table ends when no cycle is below the theme, and gives these roles and those of the theme |
| `ThemeWalk.UnfoldsWithoutCycle` | `geoportal/c2cgeoportal_geoportal/scripts/theme2fts.py:456-492` | below an item without a cycle the table unfolds to a tree, with a shared item under each of its parents |
| `ThemeWalk.WalksAgree` | `geoportal/c2cgeoportal_geoportal/scripts/theme2fts.py:394-407` | for a public theme the walk over the table and the walk over the tree collect the same roles |
| `FullTextIndex.AddFts` | `geoportal/c2cgeoportal_geoportal/scripts/theme2fts.py:344-377` | afterwards an entry with the key is there, the others stay in their order, and at most one is added; keys stay distinct |
| `FullTextIndex.OnePerName` | `geoportal/c2cgeoportal_geoportal/scripts/theme2fts.py:344-353` | with `--duplicate-name`, no two entries for the same interface and role have the same name |
| `FullTextVisibility.DuplicateNames` | `geoportal/c2cgeoportal_geoportal/scripts/theme2fts.py:72-78` | any two items with the same name that deserve an entry are both indexed without `--duplicate-name`, and not both with it |
| `FullTextVisibility.SameNameTwice` | `geoportal/c2cgeoportal_geoportal/scripts/theme2fts.py:72-78` | a theme with two layers of the same name for which this happens |
| `FullTextIndex.FillIsShows` | `geoportal/c2cgeoportal_geoportal/scripts/theme2fts.py:456-519` | what adding an item reports is whether something inside shows to the role, whatever was skipped |
| `FullTextSkips.SkippingLosesNothing` | `geoportal/c2cgeoportal_geoportal/scripts/theme2fts.py:379-432` | for every tree and all options, the test that skips roles gives the same entries in the same order and the same public sets as the plain test |
| `FullTextSkips.NothingNewTheme` | `geoportal/c2cgeoportal_geoportal/scripts/theme2fts.py:409-519` | for a role that a public theme and its layers do not name, adding the theme after the public pass changes nothing |
| `FullTextSkips.PublicPassCovers` | `geoportal/c2cgeoportal_geoportal/scripts/theme2fts.py:263-277` | after the public pass everything that everybody sees is published |
| `FullTextVisibility.ImportHas` | `geoportal/c2cgeoportal_geoportal/scripts/theme2fts.py:263-519` | with keys by id, for all choices of what to export: an item has an entry for an interface and a role exactly when it shows there to the role in a theme open to it, is exported at some place where it stands (as a theme, as a block directly in a theme, as a folder in a group, as a layer), and this does not hold for everybody |
| `FullTextVisibility.ImportHasName` | `geoportal/c2cgeoportal_geoportal/scripts/theme2fts.py:344-353` | with `--duplicate-name`, a name has an entry for an interface and a role exactly when some item with this name meets the same condition |
| `FullTextVisibility.ShowsIff` | `geoportal/c2cgeoportal_geoportal/scripts/theme2fts.py:494-519` | an item shows exactly when a layer in or below it is in the interface and is public or has a restriction area of the role |
| `FullTextVisibility.FoundIffMaySee` | `geoportal/c2cgeoportal_geoportal/views/fulltextsearch.py:75-103` | with all exports and keys by id, the rows that pass the user, interface and language filters name exactly the items the user may see: those on the way from a theme open to everybody or to a role to something that shows to everybody or to the same role |
| `FullTextVisibility.FoundIffMayFind` | `geoportal/c2cgeoportal_geoportal/views/fulltextsearch.py:75-103` | for all options, they name exactly the items that such a theme exports and that show something |
| `FullTextVisibility.RowsHave` | `geoportal/c2cgeoportal_geoportal/scripts/theme2fts.py:344-377` | an entry gives one row for each language |
| `FullTextVisibility.RowsCount` | `geoportal/c2cgeoportal_geoportal/scripts/theme2fts.py:344-377` | there are as many rows as entries times languages |
| `FullTextImport.Import.AddFts` | `geoportal/c2cgeoportal_geoportal/scripts/theme2fts.py:344-377` | fills the rows and the keys as the function does |
| `FullTextImport.Import.AddLayer` | `geoportal/c2cgeoportal_geoportal/scripts/theme2fts.py:504-519` | fills the index as the function does for a layer |
| `FullTextImport.Import.AddGroup` | `geoportal/c2cgeoportal_geoportal/scripts/theme2fts.py:456-492` | fills the index as the function does for a group, in a loop over its children |
| `FullTextImport.Import.AddTheme` | `geoportal/c2cgeoportal_geoportal/scripts/theme2fts.py:409-438` | fills the index as the function does for a theme in all its interfaces |
| `FullTextImport.Import.ExtractThemesRoles` | `geoportal/c2cgeoportal_geoportal/scripts/theme2fts.py:379-392` | the dictionary has the roles of every theme |
| `FullTextImport.Import.constructor` | `geoportal/c2cgeoportal_geoportal/scripts/theme2fts.py:134-309` | the whole import in its nested loops gives the rows of the import that tests roles plainly; its entries are those of the items that deserve one, as in `ImportHas` and `ImportHasName` |
| `TreeGraph.AcyclicWithEdge` | `commons/c2cgeoportal_commons/models/main.py:404-467` | a new link makes no cycle exactly when its child does not reach its parent |
| `TreeGraph.AcyclicWithLinks` | `commons/c2cgeoportal_commons/models/main.py:487-513` | new links under one parent make no cycle exactly when none of the children reaches the parent |
| `AncestorClosure.SearchAncestors` | `admin/c2cgeoportal_admin/schemas/treegroup.py:92-108` | the recursive query, which keeps duplicates, ends when there is no cycle, and finds exactly the items above |
| `AncestorClosure.EndsIffNoCycleAbove` | `admin/c2cgeoportal_admin/schemas/treegroup.py:92-108` | the recursive query ends exactly when there is no cycle above the item |
| `AncestorClosure.AcyclicIffAllEnd` | `admin/c2cgeoportal_admin/schemas/treegroup.py:92-108` | the query ends for every item exactly when the tree has no cycle |
| `TreeEditing.Treeitems` | `admin/c2cgeoportal_admin/schemas/treegroup.py:68-123` | the candidates are exactly the items that are no themes (only groups in the form of a theme), not the item and not above it |
| `TreeEditing.StepWellFormed` | `admin/c2cgeoportal_admin/views/treeitems.py:78-88` | every accepted step keeps themes parentless, layers childless and themes holding groups only |
| `TreeEditing.AcceptedIff` | `admin/c2cgeoportal_admin/schemas/treegroup.py:68-136` | the forms accept exactly the steps that keep these kinds of links, with children that are there and are not the item or above it |
| `TreeEditing.StepLinks` | `admin/c2cgeoportal_admin/views/layertree.py:193-216` | after saving an item the links from it are those to the given children, besides the one from the given parent; adding adds these; unlinking takes one link away; deleting takes those from and to the item away; all other links and items stay |
| `TreeEditing.StepAcyclic` | `admin/c2cgeoportal_admin/views/layertree.py:193-216` | an accepted step keeps the tree without cycles exactly when the parent it gives, if any, is not the item or below one of the chosen children |
| `TreeEditing.UnlinkRemovesLink` | `admin/c2cgeoportal_admin/views/layertree.py:193-207` | an accepted unlinking, for which exactly one row links the child to the group, removes this link and no other |
| `TreeEditing.RunKeepsTree` | `admin/c2cgeoportal_admin/schemas/treegroup.py:92-136` | every run of such steps keeps the tree without cycles, and the recursive query ends for every item |
| `TreeEditing.GivenParentCanMakeCycle` | `admin/c2cgeoportal_admin/views/treeitems.py:78-88` | a new group with a given parent that is chosen as its child as well makes a cycle, and no form refuses it |
| `ChildrenLists.SetChildrenOrderedResult` | `commons/c2cgeoportal_commons/models/main.py:506-513` | in the ordered mode, with no child twice, the rows are exactly the given children in their order, with the orderings 0, 10, 20, ... |
| `ChildrenLists.TreeGroup.SetChildren` | `commons/c2cgeoportal_commons/models/main.py:487-522` | both modes of the method on the list of rows: ordered as above; otherwise the new children come last and the rows are numbered anew |
| `SyncTree.ReportAddsUp` | `admin/c2cgeoportal_admin/lib/ogcserver_synchronizer.py:184-368` | found and added themes, groups and layers are together as many as the Layer elements below the root layer, in every run |
| `SyncAdded.RunAdds` | `admin/c2cgeoportal_admin/lib/ogcserver_synchronizer.py:184-368` | whatever the flags, a run adds the items of the document that are not there, in document order, and its report says how many elements were found and how many themes, groups and layers were added |
| `SyncTree.GetItem` | `admin/c2cgeoportal_admin/lib/ogcserver_synchronizer.py:213-220` | the item has the name of the element and is a layer, a theme or a group; items keep their ids |
| `SyncShape.AddItemShaped` | `admin/c2cgeoportal_admin/lib/ogcserver_synchronizer.py:285-290` | adding an item adds just the link from its parent |
| `SyncShape.MoveItemShaped` | `admin/c2cgeoportal_admin/lib/ogcserver_synchronizer.py:292-295` | moving an item replaces all links to it by the one from its new parent |
| `SyncShape.OrderShaped` | `admin/c2cgeoportal_admin/lib/ogcserver_synchronizer.py:228-240` | the ordering step only adds links, those from the item to the children of the server |
| `SyncAcyclic.AllSound` | `admin/c2cgeoportal_admin/lib/ogcserver_synchronizer.py:213-368` | whatever the flags and the document, themes never become children, themes hold groups only, layers hold nothing, no two items have the same kind and name, and the lists of children and of parents have the same links equally often |
| `SyncAdded.NoFlagsLinks` | `admin/c2cgeoportal_admin/lib/ogcserver_synchronizer.py:268-368` | with both flags off the links afterwards are those from before and one for each new item, from the item around the first of its elements, unless this is a layer in a theme |
| `SyncAdded.ForcedParents` | `admin/c2cgeoportal_admin/lib/ogcserver_synchronizer.py:292-295` | with `force_parents`, when no two elements have the same kind and name, every group and layer of the document has only the parent that the document gives it, and what is not in the document keeps its parents; with ordering under the condition of `SecondRunChangesNothing` |
| `SyncAcyclic.NoFlagsNoCycle` | `admin/c2cgeoportal_admin/lib/ogcserver_synchronizer.py:213-368` | with both force flags off there is no cycle after any step, for every document |
| `SyncAcyclic.ForceParentsNoCycle` | `admin/c2cgeoportal_admin/lib/ogcserver_synchronizer.py:213-368` | with `force_parents`, with or without ordering, there is no cycle after any step exactly when no group of the document is inside a group of the same name |
| `SyncAcyclic.ForceParentsMakesCycle` | `admin/c2cgeoportal_admin/lib/ogcserver_synchronizer.py:292-295` | a document with which `force_parents` makes a cycle, whatever the database |
| `SyncOrdering.OrderingAddsDocumentLinks` | `admin/c2cgeoportal_admin/lib/ogcserver_synchronizer.py:228-240` | with `force_ordering` alone the links afterwards are those from before and those of the document, no more and no less |
| `SyncOrdering.ForceOrderingNoCycle` | `admin/c2cgeoportal_admin/lib/ogcserver_synchronizer.py:228-240` | with `force_ordering` alone there is no cycle after any step exactly when the links of the database and of the document, taken as pairs of items before the run, have none together |
| `SyncOrdering.OrderingMakesCycle` | `admin/c2cgeoportal_admin/lib/ogcserver_synchronizer.py:228-240` | a document and a database without cycles, and no name twice, for which `force_ordering` alone makes a cycle |
| `SyncFrame.OrderResult` | `admin/c2cgeoportal_admin/lib/ogcserver_synchronizer.py:228-240` | the ordering step loses no child, and the children are those of the server in document order, then the others in their former order, exactly when they were so before or neither is a child linked twice nor does the server give one twice; the orderings are then 0, 10, 20, ... if the order was changed |
| `SyncStored.OrderStored` | `admin/c2cgeoportal_admin/lib/ogcserver_synchronizer.py:228-240` | when no child is linked twice, whatever the server gives, the stored orderings give the order of the children after the ordering step exactly when they gave it before or the step changed the order |
| `SyncStored.NewGroupUnordered` | `admin/c2cgeoportal_admin/lib/ogcserver_synchronizer.py:268-290` | a new group with two or more new layers has them in the order of the document, with the same stored ordering for all, also with `force_ordering` |
| `SyncFixpoint.LayerLeaves` | `admin/c2cgeoportal_admin/lib/ogcserver_synchronizer.py:213-368` | synchronizing an element leaves alone the parents of the items that do not belong to it, and their children except for those it moves away; with `force_ordering` when no child is linked twice under an item of the document, apart from the links that `force_parents` makes |
| `SyncFixpoint.AllSettle` | `admin/c2cgeoportal_admin/lib/ogcserver_synchronizer.py:184-240` | after one run nothing is left to do for any element of the document, under the same condition |
| `SyncFixpoint.SecondRunChangesNothing` | `admin/c2cgeoportal_admin/lib/ogcserver_synchronizer.py:184-368` | under every flag combination, when no two elements have the same kind and name, a second run with the same document finds all items and leaves items, children with their orderings, and parents unchanged; with `force_ordering` when no child is linked twice under an item of the document, apart from the links that `force_parents` makes |
| `SyncSettles.SecondRunIff` | `admin/c2cgeoportal_admin/lib/ogcserver_synchronizer.py:184-368` | a second run changes something exactly when `force_ordering` is on without `force_parents` and the rows of some item of the document were not stable: an item is stable when its children are in document order already, or no child of the server is linked twice and every row of another child linked twice sorts after the last child of the server |
| `SyncSettles.LayerSettlesIff` | `admin/c2cgeoportal_admin/lib/ogcserver_synchronizer.py:213-240` | with `force_ordering` alone, nothing is left to do for an element after its run exactly when its rows and those inside were stable |
| `SyncSorting.OrderSettlesIff` | `admin/c2cgeoportal_admin/lib/ogcserver_synchronizer.py:228-240` | the ordering step puts the children of the server first, in document order, exactly when they are so already, or none of them is linked twice and the rows of other children linked twice, which keep their orderings, sort after the last of them |
| `SyncRepeats.SecondRunTwice` | `admin/c2cgeoportal_admin/lib/ogcserver_synchronizer.py:184-368` | when the other children are linked once, this means: a child that the server gives is linked twice under the same parent |
| `SyncRepeats.NeverSettles` | `commons/c2cgeoportal_commons/models/main.py:506-513` | with a child of the server linked twice every run adds at least one more link to this child, in any sequence of runs, whatever else is linked twice |
| `SyncRepeats.DoubledNeverSettles` | `commons/c2cgeoportal_commons/models/main.py:506-513` | a database without cycles and a document for which this happens |
| `SyncLoaded.AlwaysOrderedIff` | `commons/c2cgeoportal_commons/models/main.py:424-430` | however a list is read, sorted by its stored orderings with equal ones in any order, the children of the server come first in document order exactly when each has one row, with orderings that increase and are smaller than all others |
| `SyncLoaded.OrderStoresIff` | `admin/c2cgeoportal_admin/lib/ogcserver_synchronizer.py:228-240` | when no child is linked twice, the ordering step leaves a list so exactly when it was so before or the step changed the order |
| `SyncLoaded.NeverChangesIff` | `admin/c2cgeoportal_admin/lib/ogcserver_synchronizer.py:184-368` | with `force_ordering` alone, a run on the database read anew changes nothing, however the rows come, exactly when all items are there and every list that the document orders is so |
| `SyncLoaded.NewGroupNotStored` | `admin/c2cgeoportal_admin/lib/ogcserver_synchronizer.py:268-290` | a new group with two or more new layers is not left so: read anew, its layers may come in another order |
| `Synchronizer.OGCServerSynchronizer.GetTheme` | `admin/c2cgeoportal_admin/lib/ogcserver_synchronizer.py:244-266` | changes rows and counters as the function does |
| `Synchronizer.OGCServerSynchronizer.GetLayerGroup` | `admin/c2cgeoportal_admin/lib/ogcserver_synchronizer.py:268-297` | changes rows and counters as the function does |
| `Synchronizer.OGCServerSynchronizer.GetLayerWms` | `admin/c2cgeoportal_admin/lib/ogcserver_synchronizer.py:299-368` | changes rows and counters as the function does; a layer has a group as parent or none |
| `Synchronizer.OGCServerSynchronizer.Move` | `admin/c2cgeoportal_admin/lib/ogcserver_synchronizer.py:292-295` | replaces the parents of an item, removing its rows in all groups |
| `Synchronizer.OGCServerSynchronizer.SetChildren` | `commons/c2cgeoportal_commons/models/main.py:502-513` | the ordered mode on the rows of the database, where present children are all among the given ones |
| `Synchronizer.OGCServerSynchronizer.SynchronizeInside` | `admin/c2cgeoportal_admin/lib/ogcserver_synchronizer.py:221-226` | the loop over the inner elements; layers in themes are done but not given as children |
| `Synchronizer.OGCServerSynchronizer.SynchronizeLayer` | `admin/c2cgeoportal_admin/lib/ogcserver_synchronizer.py:213-242` | the recursive walk changes rows and counters as the function does |
| `Synchronizer.OGCServerSynchronizer.DoSynchronize` | `admin/c2cgeoportal_admin/lib/ogcserver_synchronizer.py:184-211` | a run starts its report from zero, changes the rows as the function does, and its report adds up |
| `OAuthValidator.ValidCodeIsCodeWith` | `geoportal/c2cgeoportal_geoportal/lib/oauth2.py:438-445` | the row that `validate_code` found is the one whose challenge is looked up, and the one that the query for exactly one row in the invalidation finds |
| `OAuthRequests.AuthorizeIff` | `geoportal/c2cgeoportal_geoportal/lib/oauth2.py:948-993` | over the rows of the clients: when a client gets a code, and which error is answered otherwise, by the first condition that fails |
| `OAuthRequests.AuthorizeAnswers` | `geoportal/c2cgeoportal_geoportal/lib/oauth2.py:593-628` | one row is issued for the client and the user in place of theirs, with the code, the redirect URI, the expiry and the challenge of this request and the state of the row before; no other row changes |
| `OAuthRequests.TokenIff` | `geoportal/c2cgeoportal_geoportal/lib/oauth2.py:882-907` | over the rows: a token request passes exactly when a client has the id and the secret and a row has the code for it, live at both times, with the redirect URI, a fitting verifier and the state if required; which error is answered otherwise, by the first condition that fails |
| `OAuthRequests.TokenAnswers` | `geoportal/c2cgeoportal_geoportal/lib/oauth2.py:404-445` | on success the row of the code is gone, the tokens of the client and the user are the new ones, and no other row changes; an error changes nothing |
| `OAuthRequests.RefreshIff` | `geoportal/c2cgeoportal_geoportal/lib/oauth2.py:1034-1044` | a refresh request succeeds exactly when a client has the id and the secret and a row of it the refresh token; its tokens are then replaced and no other row changes; which error is answered otherwise |
| `OAuthServer.RequestValidator.AuthenticateClientId` | `geoportal/c2cgeoportal_geoportal/lib/oauth2.py:102-152` | a client is authenticated exactly when one has this id and the secret in the body, or the one in the header that comes with its id; a header with another user name makes the program fail |
| `OAuthServer.RequestValidator.SaveAuthorizationCode` | `geoportal/c2cgeoportal_geoportal/lib/oauth2.py:593-628` | the row of the client and the user is reused or a new one is made; a missing required state changes nothing; clients and users keep one row, and codes stay unique |
| `OAuthServer.RequestValidator.SaveBearerToken` | `geoportal/c2cgeoportal_geoportal/lib/oauth2.py:690-708` | the row of the client and the user is reused or a new one is made; tokens stay unique |
| `OAuthServer.RequestValidator.ValidateBearerToken` | `geoportal/c2cgeoportal_geoportal/lib/oauth2.py:777-788` | accepts a token exactly when some row has it and has not expired, for the user of this row |
| `OAuthServer.RequestValidator.ValidateCode` | `geoportal/c2cgeoportal_geoportal/lib/oauth2.py:882-907` | accepts a code exactly when some row has it, is of the client, has not expired and has the state of the request when the client requires one; this is the row |
| `OAuthServer.RequestValidator.ConfirmRedirectUri` | `geoportal/c2cgeoportal_geoportal/lib/oauth2.py:246-258` | the answer is whether some row of this client has the code and this redirect URI and has not expired |
| `OAuthServer.RequestValidator.InvalidateAuthorizationCode` | `geoportal/c2cgeoportal_geoportal/lib/oauth2.py:438-445` | deletes the row of the code for the client and the user and no other; it fails, and deletes nothing, exactly when there is none |
| `OAuthServer.RequestValidator.ValidateRefreshToken` | `geoportal/c2cgeoportal_geoportal/lib/oauth2.py:1034-1044` | accepts a refresh token exactly when some row of the client has it, for the user of this row |
| `OAuthServer.RequestValidator.GetCodeChallenge` | `geoportal/c2cgeoportal_geoportal/lib/oauth2.py:1229-1282` | the challenge and the method of whatever row has the code, and none when no row has it |
| `OAuthServer.RequestValidator.CreateAuthorizationResponse` | `geoportal/c2cgeoportal_geoportal/lib/oauth2.py:535-628` | the checks of section 4.1.1 of RFC 6749 and of section 4.4.1 of RFC 7636, then the code is saved; there is no error exactly when a client is registered with the id and the redirect URI of the request, which has a challenge if needed, a supported method, and a state if required; an error changes nothing |
| `OAuthServer.RequestValidator.ValidateTokenRequest` | `geoportal/c2cgeoportal_geoportal/lib/oauth2.py:882-907` | the checks in the order of section 4.1.3 of RFC 6749 and section 4.6 of RFC 7636; on success the row of the code is there for the invalidation |
| `OAuthServer.RequestValidator.CreateTokenResponse` | `geoportal/c2cgeoportal_geoportal/lib/oauth2.py:404-445` | saves the tokens, then deletes the code: its row is always there; an error changes nothing |
| `OAuthServer.RequestValidator.CreateRefreshResponse` | `geoportal/c2cgeoportal_geoportal/lib/oauth2.py:1034-1044` | the order of section 6 of RFC 6749; an error changes nothing |
| `OAuthRuns.StepKeeps` | `geoportal/c2cgeoportal_geoportal/lib/oauth2.py:535-708` | every authorize, token, refresh and clock step keeps the tables in agreement with what happened |
| `OAuthRuns.IssuesAreProper` | `geoportal/c2cgeoportal_geoportal/lib/oauth2.py:948-993` | in every run, codes are issued to registered clients only, to their own redirect URIs, with the challenges and the states that they require |
| `OAuthRuns.CodesAreRedeemedProperly` | `geoportal/c2cgeoportal_geoportal/lib/oauth2.py:246-258` | in every run there is at most one row of a code and one of tokens for a client and a user; each code is redeemed at most once, by its client, with its redirect URI, before it expires and, for a client that needs PKCE, with a verifier for the challenge sent when this code was issued |
| `OAuthRuns.TokenRequestIff` | `geoportal/c2cgeoportal_geoportal/lib/oauth2.py:882-907` | in every run, a client gets tokens for a code exactly when the code is the last one issued to it for the user, not redeemed, not expired, and the request has its secret, its redirect URI, a fitting verifier and, when the client requires a state, the one sent with the first code issued since one was redeemed |
| `OAuthRuns.NewStateIsRefused` | `geoportal/c2cgeoportal_geoportal/lib/oauth2.py:593-628` | a client that requires a state and asks again before it redeemed the first code gets a code that it cannot redeem with the new state |
| `OAuthRuns.OldStateOnly` | `geoportal/c2cgeoportal_geoportal/lib/oauth2.py:593-628` | a run of one client that asks with one state and then with another: the new state is refused and the old one accepted |
| `OAuthRuns.AccessTokenIff` | `geoportal/c2cgeoportal_geoportal/lib/oauth2.py:777-788` | in every run, an access token is accepted exactly when it was granted last to its client for its user, within its lifetime; the user had authorized the client before |
| `OAuthRuns.RefreshTokenIff` | `geoportal/c2cgeoportal_geoportal/lib/oauth2.py:1034-1044` | in every run, a refresh token is accepted exactly when it was granted last to its client for its user |
| `OAuthRuns.RefreshRequestIff` | `geoportal/c2cgeoportal_geoportal/lib/oauth2.py:1034-1044` | in every run, a refresh request succeeds exactly for a client with its secret and the refresh token of the last grant to it for some user |
| `OAuthRuns.ReplacedTokensAreDead` | `geoportal/c2cgeoportal_geoportal/lib/oauth2.py:690-708` | access and refresh tokens replaced by a later grant for the same client and user are never accepted again, however the run goes on |
| `QgisLayers.BrowseFinds` | `docker/qgisserver/geomapfish_qgisserver/accesscontrol.py:460-486` | with distinct names every node is recorded with its own name and those of its ancestors |
| `QgisLayers.BrowseOnly` | `docker/qgisserver/geomapfish_qgisserver/accesscontrol.py:465-484` | no other names are recorded than those of nodes |
| `QgisLayers.NodeLayers` | `docker/qgisserver/geomapfish_qgisserver/accesscontrol.py:488-513` | with distinct names every node gets exactly the GeoMapFish layers that name it or an ancestor |
| `QgisLayers.LayersOfGroup` | `docker/qgisserver/geomapfish_qgisserver/accesscontrol.py:460-513` | the layers of a group are also layers of everything below it |
| `QgisLayers.NodeTable.BrowseNode` | `docker/qgisserver/geomapfish_qgisserver/accesscontrol.py:465-484` | the recursive walk fills the dictionary as the function does |
| `QgisLayers.TransformNames` | `docker/qgisserver/geomapfish_qgisserver/accesscontrol.py:488-506` | the three nested loops give the table of the layers of the nodes, whatever the order of the dictionary |
| `QgisAccess.AnswerIsRight` | `docker/qgisserver/geomapfish_qgisserver/accesscontrol.py:547-600` | the answer allows exactly the points that the user may access (root, public for reading, or covered by an area of one of the roles that allows writing if needed), is "no" exactly when nothing gives access, and "full" exactly when something gives it without a limit |
| `QgisAccess.AreaIsRight` | `docker/qgisserver/geomapfish_qgisserver/accesscontrol.py:602-640` | in both modes: an error exactly for other users than root on layers that are not known, and otherwise an answer that is right in this sense |
| `QgisAccess.RightsAre` | `docker/qgisserver/geomapfish_qgisserver/accesscontrol.py:735-778` | no rights on a project that is not known; on a layer that is not known root may read; otherwise reading goes with read access, and inserting, updating and deleting each with write access |
| `QgisAccess.OrderDoesNotMatter` | `docker/qgisserver/geomapfish_qgisserver/accesscontrol.py:581-600` | the answer depends on the sets of roles and of areas only, not on their orders |
| `QgisAccess.MoreGivesMore` | `docker/qgisserver/geomapfish_qgisserver/accesscontrol.py:565-600` | more roles, more layers, or reading instead of writing never give less access |
| `QgisAccess.WriteIsReadable` | `docker/qgisserver/geomapfish_qgisserver/accesscontrol.py:765-778` | write access never exceeds read access |
| `QgisAccess.GroupAccessGoesDown` | `docker/qgisserver/geomapfish_qgisserver/accesscontrol.py:460-513` | access to a group is at least given to everything below it, for every mode and user |
| `QgisAccess.EditIff` | `docker/qgisserver/geomapfish_qgisserver/accesscontrol.py:831-859` | never on a project that is not known, an error for other users than root on layers that are not known, and otherwise a feature may be edited exactly when the user may write at one of its points, or anywhere |
| `QgisAccess.EditNeedsUpdate` | `docker/qgisserver/geomapfish_qgisserver/accesscontrol.py:743-778` | whatever may be edited may also be updated, exactly for projects that are not known, for layers that are, and for other users than root |
| `QgisAccess.RootEditsUnknown` | `docker/qgisserver/geomapfish_qgisserver/accesscontrol.py:755-763` | on an unknown layer root may edit though the rights deny updates: the condition is needed |
| `QgisAccess.KeyGivesAnswer` | `docker/qgisserver/geomapfish_qgisserver/accesscontrol.py:618-640` | the sorted role ids in the key determine the answer |
| `QgisAccess.SameKeySameAccess` | `docker/qgisserver/geomapfish_qgisserver/accesscontrol.py:861-877` | requests with equal cache keys get equal areas, rights and edit decisions |
| `QgisServer.GetRestrictionAreas` | `docker/qgisserver/geomapfish_qgisserver/accesscontrol.py:547-600` | the nested loops with their early returns give the areas of the definition |
| `QgisServer.OGCServerAccessControl.GetLayers` | `docker/qgisserver/geomapfish_qgisserver/accesscontrol.py:436-513` | the table is filled once and is always that of the project |
| `QgisServer.OGCServerAccessControl.GetAccessArea` | `docker/qgisserver/geomapfish_qgisserver/accesscontrol.py:602-640` | whatever was asked before, the cached answer is the one that would be computed anew, in both modes right as in `AreaIsRight` |
| `QgisServer.OGCServerAccessControl.Permissions` | `docker/qgisserver/geomapfish_qgisserver/accesscontrol.py:735-778` | the rights, as in `RightsAre` |
| `QgisServer.OGCServerAccessControl.MayEdit` | `docker/qgisserver/geomapfish_qgisserver/accesscontrol.py:831-859` | the decision, through the cache, as in `EditIff` |
| `RoleKeys.SortIff` | `docker/qgisserver/geomapfish_qgisserver/accesscontrol.py:618` | sorted role ids are equal exactly for equal sets of roles |
| `RoleKeys.CacheKeyIff` | `docker/qgisserver/geomapfish_qgisserver/accesscontrol.py:861-877` | two requests have the same cache key exactly when they are for the same host, and both are root or both have the same set of roles |
| `RoleKeys.JoinedInjective` | `docker/qgisserver/geomapfish_qgisserver/accesscontrol.py:876` | joining with commas can be undone |
| `WmsTime.MergeCovers` | `geoportal/c2cgeoportal_geoportal/lib/wmstparsing.py:148-229` | two extents merge exactly when they are of the same kind with the same interval; the result covers both, and keeps the first resolution |
| `WmsTime.MergeAllIff` | `geoportal/c2cgeoportal_geoportal/lib/wmstparsing.py:72-120` | entries merge exactly when every two of them fit, into the union of values, the earliest start, the latest end, the extreme defaults, the common mode and the common widget |
| `WmsTime.OrderDoesNotMatter` | `geoportal/c2cgeoportal_geoportal/lib/wmstparsing.py:72-120` | in every order the entries either fail or give the same information, except for the resolution |
| `WmsTimeLayers.TimeInformation.MergeExtent` | `geoportal/c2cgeoportal_geoportal/lib/wmstparsing.py:86-90` | sets or merges the extent; a failure changes nothing |
| `WmsTimeLayers.TimeInformation.MergeMode` | `geoportal/c2cgeoportal_geoportal/lib/wmstparsing.py:92-98` | sets or checks the mode, and ignores disabled ones |
| `WmsTimeLayers.TimeInformation.MergeWidget` | `geoportal/c2cgeoportal_geoportal/lib/wmstparsing.py:100-108` | sets or checks the widget, a slider by default |
| `WmsTimeLayers.TimeInformation.Merge` | `geoportal/c2cgeoportal_geoportal/lib/wmstparsing.py:72-84` | the entry "time" goes to the layer if there was no extent or if its dictionary equals that of the current layer, and is otherwise deleted from the current one; a failing merge keeps what was merged before it failed and touches no dictionary; when different layers have different dictionaries, a layer has "time" exactly when it is the only distinct layer merged so far |

## Left out

- Reading XML: parsing, prefix mappings, `setDocumentLocator`, `skippedEntity` and document events, which pass unchanged; attributes are values.
- Lower case is that of the letters A to Z.
- The contents that owslib reads: owslib is not part of this model; its contents are the layers with a name in document order with the layers around them, where the name of a layer is the text of the first Name element directly in it, an empty one counting as none and blanks around it being kept; the structure and the filtered document are of the same layers.
- LeafVisibility.LeafPrintedExactly: a layer whose own name comes after style names or is read in several pieces, and layers with equal names, are covered by `LeafPrintedByTexts` only.
- LeafVisibility.FilterCapabilities: says of the named leaves which are in the output; those without a name cannot be told apart there.
- Capabilities of WFS-T: the filter with a list of writable layers is modelled as a policy (`Whitelist`) of the machine, the query of these layers is not.
- Text that no closing element follows is not sent by the filter; `CapabilitiesFilter.Filter` returns it apart.
- Labels, texts and paths of the rows of the full-text index; only the item, the interface, the role, the language and the action of a row are modelled. Queries with search terms, limits and ranking are not.
- The full-text import works on the tree that the table of links unfolds to below a theme, which `ThemeWalk.UnfoldsWithoutCycle` shows to be there without a cycle; with a cycle the walks do not end.
- The form of a theme has no parent; validation of other fields, permissions and the duplication of items are not modelled.
- TreeEditing.Treeitems: names, order and icons of the proposed items are not modelled.
- ChildrenLists.TreeGroup.SetChildren: requires that the present children are among the given ones, as both callers modelled here ensure; the loop that drops the others removes rows from the list that it iterates over, and what then remains is up to the object-relational mapper.
- SyncSettles.SecondRunIff: with both flags, does not decide the databases where a child that the server does not give is linked twice under an item of the document, since `force_parents` may move this child away later in the run.
- The option `clean` of the synchronizer, `check_layers`, the dry run, logging, and the fields copied from a default layer; elements without a name, for which the program stops.
- SyncLoaded.NeverChangesIff: is stated for `force_ordering` alone; the other results on repeated runs are about the lists in memory, as one run left them.
- Scopes, introspection, revocation and the other requests that the validator does not implement; how the server signs and formats answers.
- Geometries: an area and a feature are finite sets of points; repairs, dimensions, projections and SQL filters are not modelled.
- The names of QGIS nodes (ids, short names) are given; the attributes that a user may see are not modelled.
- Invalidation of the caches of QGIS server when the database or the project changes: it empties the layers but not the areas.
- Time extents are values, so that merging one object with itself is not modelled; parsing and formatting of dates and intervals, and the dictionary of an empty set of dates.
- WmsTimeLayers.TimeInformation.Merge: requires that the current layer still has its entry "time", which only this object removes; when others remove it, the program fails.
- HTTP, proxies, configuration, metrics, mail, translations and upgrade scripts.
