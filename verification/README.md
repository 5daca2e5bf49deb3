# Node-tree editor: a verified model

This project models the core of a small React tree editor. It is written in Dafny.

## What is modelled

**The editor's home page** (`src/app/page.tsx`) holds a tree of nodes in its `nodeTree` state. Each node has an id and an ordered list of children. The root has the id `"START"`. The page has these operations:

- `findNodeById` and `findParentNodeById` search the tree.
- `generateNodeId` picks a fresh id of the form `n` (below the root) or `parent.n`.
- `addNewNode` appends a new childless node to the children of a found node.
- `changeNode` moves a subtree to the end of another node's children. It refuses three moves: onto the current parent, onto the node itself, and into the node's own subtree. `onChangeNodePosition` and `onChangeNodePositionAbove` find the nodes for it.

**The scratch tree** (`src/app/test.tsx`) works on a forest of nodes that have a text and optional children. It has three forest helpers: `findNodeById`, `removeNodeById` and `insertNode`. Its `handleDrop` event handler writes the component's `childNodes` state twice.

The Dafny modules follow that structure:

- `NodeTree` holds the tree datatype and the two finders. It also defines the views used to state properties:
  - the nodes in depth-first pre-order;
  - the ids in pre-order;
  - `Layout`, a map from each id to the ids of that node's children, in order.
- `NodeEdit` models the two in-place mutations. `children.push(x)` and `children = children.filter(...)` become an edit of the children of the first pre-order node with a given id. That is the node `findNodeById` returns, and under unique ids it is the object the page mutates.
- `HomePage` models the page's operations in two forms:
  - specification functions: `AfterAdd`, `AfterChange`, `AfterMove` and `AfterMoveAbove`;
  - the class `Home`, whose field `nodeTree` is changed by methods that follow the source's statements. Each method is proved to produce exactly the specification function's result.

  `Home.Valid` is the invariant: the root is `"START"` and no id occurs twice. It holds initially and every method keeps it.
- `NumberText` models the template literal `${n}` as the decimal rendering of a natural number.
- `MapAlgebra` holds generic facts about map union, update and key removal. The layout lemmas use them.
- `ScratchTree` models the test page:
  - its forest finder is a method with the source's index loop;
  - `removeNodeById` and `insertNode` are functions;
  - the `TreeNode` component is a class whose `HandleDrop` method performs the two state updates.

A change never affects the nodes other than those the source touches. `Layout` states this. Under unique ids, the layout together with the root id determines the tree (`LayoutDetermines`). So an equation between layouts says exactly which child lists changed, and that no other list did.

`generateNodeId` has no termination argument in the source. The model supplies one. The set of candidate ids from the current number on that are already used shrinks with every probe. This works because different numbers render to different candidates (`CandidateIdInjective`).

## Model

| member | source | states |
|---|---|---|
| NodeTree.FindNodeById | src/app/page.tsx:38-49 | finds a node exactly when some node of the tree has the id; what it finds has that id and is a node of the tree |
| NodeTree.FindIsFirstInPreorder | src/app/page.tsx:38-49 | the node found is the first node with that id in depth-first pre-order (the node itself, then its children in order) |
| NodeTree.FindUnique | src/app/page.tsx:38-49 | under unique ids, searching for the id of a node of the tree finds that very node |
| NodeTree.FindParentNodeById | src/app/page.tsx:51-67 | finds a node exactly when the id belongs to a node below the root; what it finds is a node of the tree with a direct child of that id |
| NodeTree.FindParentIsFirstInPreorder | src/app/page.tsx:51-67 | the node found is the first node in depth-first pre-order that has a direct child with that id |
| NodeTree.RootHasNoParent | src/app/page.tsx:51-67 | under unique ids, no parent is found for the root's id |
| NodeTree.ParentHoldsChild | src/app/page.tsx:70-73 | under unique ids, when a parent of an id is found, findNodeById finds the node with that id and it is one of that parent's children |
| NodeTree.LayoutDetermines | src/app/page.tsx:18-25 | under unique ids, two trees with the same root id and the same layout are equal, so a layout equation pins down the whole tree after a change |
| NumberText.NatToString | src/app/page.tsx:30 | the rendering of a number is a non-empty string of decimal digits without a leading zero; it has one character exactly when the number is below ten; its decimal value is the number (NatToStringValue) |
| NumberText.NatToStringValue | src/app/page.tsx:30 | read back as a decimal numeral, the rendering of a number is that number |
| NumberText.NatToStringInjective | src/app/page.tsx:30 | different numbers render to different strings |
| HomePage.CandidateIdInjective | src/app/page.tsx:28-30 | below the same parent, different numbers give different candidate ids |
| HomePage.CandidateId | src/app/page.tsx:28-30 | below the root the candidate is the decimal numeral of the number; below any other node it is the parent id, a dot, then that numeral |
| HomePage.UsedFromShrinks | src/app/page.tsx:31-33 | each failed probe removes one used candidate from the finite set of used candidates still ahead, so the probing ends |
| HomePage.GenerateNodeId | src/app/page.tsx:27-36 | the id returned is used by no node of the tree; it is the candidate for some number no smaller than the starting one, and every candidate between the start and that number is used |
| HomePage.GeneratedIsLeast | src/app/page.tsx:27-36 | the number of the generated id is the least unused one from the starting number on |
| HomePage.AfterAdd | src/app/page.tsx:18-25 | the specification of addNewNode; its own contract says only that the root id is kept; AddChangesIff and AddAccepted carry what it does |
| HomePage.SuffixIncreases | src/app/page.tsx:18-36 | after an addition below a node, the next addition below the same node gets a larger number |
| HomePage.AddChangesIff | src/app/page.tsx:18-25 | addNewNode changes the tree exactly when the id names one of its nodes; an unknown id leaves it as it was |
| HomePage.AddAccepted | src/app/page.tsx:18-25 | for a known id under unique ids: the new id is fresh; the ids grow by exactly the new id, so they stay unique; the node with the id keeps its children in order and gains a childless last child with the new id; no other node's children change |
| HomePage.Home.constructor | src/app/page.tsx:9-15 | the state starts as a lone root "START" and satisfies the invariant |
| HomePage.Home.AddNewNode | src/app/page.tsx:18-25 | keeps the invariant; the new tree is AfterAdd of the old one |
| NodeEdit.FindAfterEdit | src/app/page.tsx:23 | after an edit at a known id, findNodeById finds at that id the node found before, with the edit applied to its children |
| NodeEdit.EditAbsent | src/app/page.tsx:23 | an edit at an id no node carries leaves the tree unchanged |
| NodeEdit.EditAt | src/app/page.tsx:23 | an edit of the children of the first pre-order node with an id keeps the root id; FindAfterEdit, EditAbsent and the Ids and Layout lemmas carry the rest |
| NodeEdit.EditFirst | src/app/page.tsx:23 | an edit within a list of children keeps its length and the id of every entry, in order |
| NodeEdit.Apply | src/app/page.tsx:93-96 | a push keeps the old children in order and adds the new child last; a filter never lengthens the list |
| NodeEdit.Without | src/app/page.tsx:94-96 | the filter never lengthens the list; WithoutMembers and ChildIdsWithout state exactly which children it keeps, in order |
| NodeEdit.IdsAfterPush | src/app/page.tsx:23 | pushing a subtree at a known id adds exactly the subtree's ids to the tree's ids |
| NodeEdit.MemAfterPush | src/app/page.tsx:23 | after a push, an id is in the tree exactly when it was before, or the push found its target and the id is in the pushed subtree |
| NodeEdit.IdsAfterDrop | src/app/page.tsx:94-96 | under unique ids, filtering a child out of a found node removes exactly that child's ids |
| NodeEdit.WithoutMembers | src/app/page.tsx:94-96 | the filter keeps exactly the children whose id differs from the filtered id |
| NodeEdit.ChildIdsWithout | src/app/page.tsx:94-96 | the ids of the filtered children are the filtered list of child ids, in order |
| NodeEdit.LayoutAfterPush | src/app/page.tsx:23 | under unique ids, pushing a subtree with fresh ids appends its id to the target's child ids and adds the subtree's layout; no other node's children change |
| NodeEdit.LayoutAfterDrop | src/app/page.tsx:94-96 | under unique ids, filtering a child out of a found node drops that id from its child ids, keeping the others in order, and drops the child's subtree; no other node's children change |
| NodeEdit.PushDropCommute | src/app/page.tsx:93-96 | pushing at one node and filtering at another give the same tree in either order, when the pushed subtree does not hold the filtering node and the filtered children do not hold the pushing node |
| HomePage.ChangeAsDropThenPush | src/app/page.tsx:88-98 | for an accepted move, changeNode's push-then-filter equals filter-then-push |
| HomePage.DetachedIds | src/app/page.tsx:94-96 | after the filter step of an accepted move, the ids of the tree and of the detached subtree split the old ids; the destination is still in the tree |
| HomePage.ChangeFinds | src/app/page.tsx:93-96 | after an accepted move, the moved subtree is found unchanged, and it is the last child of the destination |
| HomePage.ChangeLayout | src/app/page.tsx:93-96 | after an accepted move, only the old parent's and the destination's child lists differ: the parent's loses the moved id (the rest keep their order) and the destination's gains it last |
| HomePage.ChangeAccepted | src/app/page.tsx:88-98 | an accepted changeNode keeps the multiset of ids, so ids stay unique and the tree stays a tree; the moved subtree is found unchanged as the destination's last child; the old parent loses it and keeps its other children in order; no other node's children change |
| HomePage.AfterChange | src/app/page.tsx:88-98 | the specification of changeNode; its own contract says only that the root id is kept; ChangeAccepted carries what an accepted move does |
| HomePage.Home.ChangeNode | src/app/page.tsx:88-98 | keeps the invariant; the new tree is AfterChange of the old one (a no-op for the three refused moves) |
| HomePage.MoveAccepted | src/app/page.tsx:69-75 | an accepted onChangeNodePosition moves the found node from below its parent to the end of the found destination's children, and changes nothing else |
| HomePage.MoveChangesIff | src/app/page.tsx:69-75 | onChangeNodePosition changes the tree exactly when it accepts the move; unknown ids, moving the root, moving onto the current parent, onto the node itself or into its own subtree all leave the tree as it was |
| HomePage.AfterMove | src/app/page.tsx:69-75 | the specification of onChangeNodePosition; its own contract says only that the root id is kept; MoveAccepted and MoveChangesIff carry what it does |
| HomePage.Home.OnChangeNodePosition | src/app/page.tsx:69-75 | keeps the invariant; the new tree is AfterMove of the old one |
| HomePage.MoveAboveIsMoveToParent | src/app/page.tsx:77-86 | onChangeNodePositionAbove is onChangeNodePosition to the parent of the given child, so the moved node is appended last, not placed before that child; with no such parent it changes nothing |
| HomePage.AfterMoveAbove | src/app/page.tsx:77-86 | the specification of onChangeNodePositionAbove; its own contract says only that the root id is kept; MoveAboveIsMoveToParent carries what it does |
| HomePage.Home.OnChangeNodePositionAbove | src/app/page.tsx:77-86 | keeps the invariant; the new tree is AfterMoveAbove of the old one |
| HomePage.SessionFirstAdd | src/app/page.tsx:9-36 | from the initial tree, adding below the root gives the child "1" |
| HomePage.SessionSecondAdd | src/app/page.tsx:18-36 | adding below the root again gives a second child "2" after "1" |
| HomePage.SessionThirdAdd | src/app/page.tsx:18-36 | adding below "1" gives it the child "1.1" |
| HomePage.SessionMove | src/app/page.tsx:69-98 | moving "2" onto "1.1" leaves the root with the single child "1", whose child "1.1" now has the child "2" |
| ScratchTree.FindNodeById | src/app/test.tsx:49-62 | the index loop returns the first node with the id in depth-first pre-order of the forest, or none; absent children are not searched |
| ScratchTree.FindStep | src/app/test.tsx:50-59 | one loop step: with no match before entry i, the first match is entry i itself, else the first match below it, else there is none up to and including entry i |
| ScratchTree.RemoveNodeById | src/app/test.tsx:64-66 | the result holds exactly the top-level entries whose id differs (whole, children not looked at) and is no longer than the input |
| ScratchTree.RemoveAppend | src/app/test.tsx:64-66 | the filter works entry by entry, so it keeps the order of the entries it keeps |
| ScratchTree.RemoveIdempotent | src/app/test.tsx:64-66 | removing the same id twice gives what removing it once gives |
| ScratchTree.RemoveAbsent | src/app/test.tsx:64-66 | with no top-level entry of that id the list is returned unchanged |
| ScratchTree.InsertNode | src/app/test.tsx:68-88 | the result has the input's length, and every entry keeps its id and text |
| ScratchTree.InsertAtMatch | src/app/test.tsx:73-79 | an entry with the parent id gets the new node as last child after its old children, with nothing inside it changed |
| ScratchTree.InsertInto | src/app/test.tsx:73-87 | the callback keeps the id and text of the node it is applied to |
| ScratchTree.InsertAbsent | src/app/test.tsx:80-86 | when no node of the forest has the parent id, the result equals the input |
| ScratchTree.FindAfterInsert | src/app/test.tsx:68-88 | after insertNode, the first node found at the parent id is the one found before, with the new node appended to its children |
| ScratchTree.DropChangesNothing | src/app/test.tsx:32-47 | when no node below carries the component's own id (always so under unique ids), a drop leaves childNodes unchanged |
| ScratchTree.AfterDrop | src/app/test.tsx:32-47 | the final childNodes has the same length as the list the handler started from, with every entry keeping its id and text; DropChangesNothing and HandleDrop carry the rest |
| ScratchTree.TreeNode.constructor | src/app/test.tsx:15-17 | childNodes starts as the node's children, or empty when it has none |
| ScratchTree.TreeNode.HandleDrop | src/app/test.tsx:32-47 | childNodes is unchanged when the dropped id is not found below; otherwise it is insertNode applied to the list the handler started from, because the filtered list is overwritten |

## Left out

- Rendering, `DndProvider`/`HTML5Backend`, the `isDragging` flag and the `MainNode` component (`src/components/MainNode/index.tsx`) are left out. They are presentation and only forward ids to the operations.
- The `setNodeTree({ ...nodeTree })` republishing is not modelled. The model assigns the new tree to `nodeTree` directly.
- Drag events are modelled only through their payload. `e.dataTransfer` and `preventDefault` are left out, and the dropped id is a parameter of `HandleDrop`.
- The `dragOver` flag of the scratch tree is left out, as are the drag handlers that set it and the hard-coded sample `treeData`.
- JS object aliasing is not modelled. The page mutates the node objects its finders return. The model edits the first pre-order node with the same id, which is that object whenever ids are unique; `Home.Valid` keeps them unique.
- The model does not capture what the mutation does to a tree with duplicate ids, because such a tree never arises from the initial state.
- React's state batching is modelled only for `handleDrop`. Both state updates start from the list the handler was created with, and the last update wins. Re-renders and later handlers are not modelled.
- HomePage.Home.ChangeNode takes its three nodes as values and requires them to be nodes of the tree, with `fromNode` a child of `parentNode`. The source passes object references, and both callers guarantee this.
- HomePage.MoveAccepted, HomePage.MoveChangesIff and HomePage.MoveAboveIsMoveToParent are stated for trees with unique ids, which is the invariant every reachable state satisfies.
- Integers are unbounded. A JS number loses precision above 2^53, so a child number that large would not be rendered exactly; the model ignores this because no reachable tree needs such a number.
