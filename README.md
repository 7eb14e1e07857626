# Path globs and the mirrored parse tree, in Dafny

This project models the path-matching helpers of fparser's `example/` directory.

`example/path_matcher.py` turns a `/`-separated glob into a regular expression (`fn_to_re`). It wraps that expression in `PathPattern` and `PathMultiPattern` matchers, and `create_from` builds either kind from a string, a list or an existing matcher. `example/construct_uml.py` walks a parse tree with a visitor (`PathBuilder`). It mirrors every parse-tree node as a node of a path tree (`PathRoot`, `PathNode`). Each path-tree node has a path such as `/Program/Module/Subroutine`, a list of ancestors, a prunable preorder walk over its descendants (`decendants`), and glob queries over its children or descendants (`find_*`).

The model is split into these modules:

- `Strings`: `str.split` and `'/'.join` on one separator, and the facts that make them inverse to each other.
- `Regex`: the fragment of Python `re` that `fn_to_re` emits. An atom is a literal character, `.*` or `[^\n/]*`; an expression may start with `^` and ends with one or more `$`. `search` is modelled with Python's rules: `.` never matches a newline, and `$` matches at the end or just before a final newline.
- `Glob`: what a glob means, stated on path segments (a reference definition independent of regular expressions).
- `GlobCompiler`: `fn_to_re`, as a loop (`FnToRe`) proved against the function `Compiled`. The main theorem `CompiledMeansGlob` says that searching the compiled expression agrees with the glob meaning on every newline-free absolute path.
- `PathMatcher`: `PathPattern`, `PathMultiPattern` and `create_from`.
- `PathMatchTable`: every row of `test_path_match`, proved as a lemma.
- `SourceTree`: the parse tree, as far as `children()` can see it.
- `PathTree`: the path tree as an arena of entries indexed from 0. Each entry holds its source node, its parent's index and the indices of its children. Also here: `path(root)` for both node kinds, and `ancestors()`.
- `PathWalk`: `decendants()`, with the caller's prune signals given as the set of direct children after which a truthy value was sent.
- `PathFind`: `find_in`, `find_one_in` and the four `find_*` helpers.
- `PathBuild`: the `PathBuilder` class, whose `VisitObject` updates the node list in place. It is proved against a specification function `Mirror`. Further lemmas show that the built tree is well formed, mirrors the parse tree's children in order, and is walked in the order it was built.

A few behaviours of the code are easy to misread. The model follows the code:

- `children()` prefers `content` to `items` (construct_uml.py:16-18).
- The path of the `PathRoot` without a `root` argument is `/` followed by its type name, not `/` (lines 62-66).
- `path(root=self)` on a `PathNode` is the parent's absolute path followed by `/` (lines 135-139; `PathTree.PathOfItself`).
- In `fn_to_re`, a glob starting with `/` gets `$` twice (lines 19 and 28), which changes nothing (`Regex.RepeatedEndAnchor`).
- The empty glob compiles to `/$`. It therefore matches every path that ends in `/`, not nothing (row 77 is a path without a trailing `/`).
- `**` compiles to `.*` after a `/`. A `**` segment therefore stands for one or more path segments, not zero or more: `/a/**/d` does not match `/a/d`.
- `$` also matches just before a trailing newline, so the equivalence with the glob meaning is stated for newline-free paths only.
- The test table has 34 rows (lines 77-110).

## Model

| member | source | states |
|---|---|---|
| Strings.JoinSplit | example/path_matcher.py:7-15 | joining the pieces of a split on the separator gives the string back |
| Strings.SplitJoin | example/path_matcher.py:7-15 | splitting a join of separator-free pieces gives the pieces back |
| Regex.RepeatedEndAnchor | example/path_matcher.py:17-28 | the doubled `$$` an absolute glob gets searches exactly as a single `$` does |
| Regex.AnchoredWithoutNewline | example/path_matcher.py:28 | on text without a newline, ending at `$` means consuming all of the text |
| Glob.SegMatchStaysInSegment | example/path_matcher.py:12-14 | a `*` of a segment never matches across a `/` |
| Glob.NoGlobStarCountsSegments | example/path_matcher.py:7-15 | a glob without `**` matches exactly as many path segments as it has |
| Glob.GlobStarMatchesAnything | example/path_matcher.py:8-10 | a lone `**` matches any non-empty list of path segments |
| GlobCompiler.FnToRe | example/path_matcher.py:4-29 | the loop over the split glob and the three anchoring branches yield exactly `Compiled(pattern)` |
| GlobCompiler.SegmentAtomsMatch | example/path_matcher.py:12-14 | the escaped segment with `*` replaced by `[^\n/]*` matches exactly the text the glob segment means |
| GlobCompiler.BodyMatch | example/path_matcher.py:7-15 | the `/`-joined compiled segments match a newline-free text exactly when the glob segments match its `/`-separated pieces, `**` standing for one or more pieces |
| GlobCompiler.CompiledMeansGlob | example/path_matcher.py:4-29 | searching the compiled expression in a newline-free absolute path succeeds if and only if the glob means the path (absolute globs: all segments; others: the segments from some boundary on) |
| PathMatcher.NewPathPattern | example/path_matcher.py:32-39 | a new pattern keeps its glob and holds the expression compiled from it |
| PathMatcher.PatternMatches | example/path_matcher.py:41-43 | on a newline-free path starting with `/`, `matches` is true exactly when the glob means the path |
| PathMatcher.NewMultiPattern | example/path_matcher.py:59-61 | one pattern per glob, in order, each compiled from its glob |
| PathMatcher.MatcherMatches | example/path_matcher.py:41-68 | either kind of matcher matches a newline-free path exactly when one of its globs means it |
| PathMatcher.MultiMatches | example/path_matcher.py:63-68 | the loop returns true exactly when some member matches, and false for no members |
| PathMatcher.CreateFrom | example/path_matcher.py:45-56 | matchers pass through unchanged, a string becomes one pattern, a list of strings a multi-pattern with those globs in order, a list with a non-string fails, anything else fails with its type name |
| PathMatcher.CreatedMatcherMeansGlobs | example/path_matcher.py:45-68 | a matcher made from a string or a list matches a newline-free path exactly when one of the given globs means it |
| PathMatchTable.PathMatch | example/path_matcher.py:71-72 | `path_match` on a newline-free path agrees with the glob meaning |
| PathMatchTable.Row77 | example/path_matcher.py:77 | glob "" on path "/a/b" reports no match |
| PathMatchTable.Row78 | example/path_matcher.py:78 | glob "a" on path "/a/b" reports no match |
| PathMatchTable.Row79 | example/path_matcher.py:79 | glob "/a" on path "/a" reports a match |
| PathMatchTable.Row80 | example/path_matcher.py:80 | glob "/a" on path "/a/b" reports no match |
| PathMatchTable.Row81 | example/path_matcher.py:81 | glob "/b" on path "/a/b" reports no match |
| PathMatchTable.Row82 | example/path_matcher.py:82 | glob "*/b" on path "/a/b" reports a match |
| PathMatchTable.Row83 | example/path_matcher.py:83 | glob "*/c" on path "/a/b/c" reports a match |
| PathMatchTable.Row84 | example/path_matcher.py:84 | glob "/*/c" on path "/a/b/c" reports no match |
| PathMatchTable.Row85 | example/path_matcher.py:85 | glob "**/b" on path "/a/b" reports a match |
| PathMatchTable.Row86 | example/path_matcher.py:86 | glob "*" on path "/a" reports a match |
| PathMatchTable.Row87 | example/path_matcher.py:87 | glob "*" on path "/a/b" reports a match |
| PathMatchTable.Row88 | example/path_matcher.py:88 | glob "/*" on path "/a/b" reports no match |
| PathMatchTable.Row89 | example/path_matcher.py:89 | glob "**" on path "/a/b" reports a match |
| PathMatchTable.Row90 | example/path_matcher.py:90 | glob "/**" on path "/a/b" reports a match |
| PathMatchTable.Row91 | example/path_matcher.py:91 | glob "/a/**/d" on path "/a/b/c/d" reports a match |
| PathMatchTable.Row92 | example/path_matcher.py:92 | glob "/a/**/e" on path "/a/b/c/d" reports no match |
| PathMatchTable.Row93 | example/path_matcher.py:93 | glob "a/b" on path "/a/b" reports a match |
| PathMatchTable.Row94 | example/path_matcher.py:94 | glob "/a/b" on path "/a/b" reports a match |
| PathMatchTable.Row95 | example/path_matcher.py:95 | glob "/a/*" on path "/a/b" reports a match |
| PathMatchTable.Row96 | example/path_matcher.py:96 | glob "/a/*" on path "/a/b/c" reports no match |
| PathMatchTable.Row97 | example/path_matcher.py:97 | glob "/a/**" on path "/a/b/c" reports a match |
| PathMatchTable.Row98 | example/path_matcher.py:98 | glob "b/**" on path "/a/b/c" reports a match |
| PathMatchTable.Row99 | example/path_matcher.py:99 | glob "/b/**" on path "/a/b/c" reports no match |
| PathMatchTable.Row100 | example/path_matcher.py:100 | glob "a" on path "/ab" reports no match |
| PathMatchTable.Row101 | example/path_matcher.py:101 | glob "b" on path "/ab" reports no match |
| PathMatchTable.Row102 | example/path_matcher.py:102 | glob "b/c" on path "/a/b/c" reports a match |
| PathMatchTable.Row103 | example/path_matcher.py:103 | glob "b/c" on path "/ab/c" reports no match |
| PathMatchTable.Row104 | example/path_matcher.py:104 | glob "/b/c" on path "/ab/c" reports no match |
| PathMatchTable.Row105 | example/path_matcher.py:105 | glob "b/c/*" on path "/a/b/c/d" reports a match |
| PathMatchTable.Row106 | example/path_matcher.py:106 | glob "b/**" on path "/a/b/c/d" reports a match |
| PathMatchTable.Row107 | example/path_matcher.py:107 | glob "/b/c/*" on path "/a/b/c/d" reports no match |
| PathMatchTable.Row108 | example/path_matcher.py:108 | glob "b/c" on path "/a/b/c/d" reports no match |
| PathMatchTable.Row109 | example/path_matcher.py:109 | glob "b/c/" on path "/a/b/c/d" reports no match |
| PathMatchTable.Row110 | example/path_matcher.py:110 | glob "/b/c" on path "/a/b/c/d" reports no match |
| SourceTree.Walk | example/construct_uml.py:14-19 | the children visited: `content`, else `items`, else none; each is a proper part of the node |
| PathTree.Ancestors | example/construct_uml.py:155-160 | every ancestor of a node comes before it |
| PathTree.OnlyRootIsParentless | example/construct_uml.py:163-178 | the `PathRoot` is the one node without a parent |
| PathTree.AncestorsChain | example/construct_uml.py:155-160 | ancestors start at the parent, each is the parent of the one before, they end at the root, and the root has none |
| PathTree.AncestorsOfParent | example/construct_uml.py:155-160 | a node's ancestors are its parent followed by the parent's ancestors |
| PathTree.PathStartsWithSlash | example/construct_uml.py:135-139 | every path, relative to any root, starts with `/` |
| PathTree.PathFromRoot | example/construct_uml.py:135-139 | relative to nothing or to an unrelated node, a path is `/T` for every node from the top one down to the node itself |
| PathTree.PathBelowAncestor | example/construct_uml.py:135-139 | relative to its `k`-th ancestor, a path names exactly the nodes below that ancestor down to the node |
| PathTree.PathOfItself | example/construct_uml.py:135-139 | relative to itself a path is `/` for the root and the parent's absolute path plus `/` for any other node |
| PathWalk.Decendants | example/construct_uml.py:68-90 | the generator loop, with the caller pruning a given set of direct children, yields exactly `Descendants(t, i, prune)` |
| PathWalk.DescendantsFrame | example/construct_uml.py:83-90 | the walk from a node depends only on the children lists of that node and later ones |
| PathWalk.DescendantsAreUnder | example/construct_uml.py:83-90 | without pruning the walk yields exactly the nodes the start node is an ancestor of |
| PathWalk.PrunedMembers | example/construct_uml.py:83-90 | pruning drops exactly the nodes strictly under a pruned direct child; the pruned child itself is still yielded |
| PathWalk.DescendantsDistinct | example/construct_uml.py:83-90 | the walk yields each node at most once, pruned or not |
| PathWalk.RootDescendants | example/construct_uml.py:83-90 | from the root the walk yields every other node exactly once |
| PathFind.FindIn | example/construct_uml.py:98-105 | fails exactly when `create_from` fails, with its error; otherwise yields, in list order, every listed occurrence of a node that passes and nothing else (each passing node as many times as it is listed) |
| PathFind.FilterCount | example/construct_uml.py:103-105 | the loop yields one match per listed occurrence of a passing node |
| PathFind.FilterOccurrences | example/construct_uml.py:103-105 | each passing node is yielded exactly as often as it is listed, and no other node is yielded |
| PathFind.FilterEmpty | example/construct_uml.py:108-110 | nothing is found exactly when no listed node passes |
| PathFind.FilterSingle | example/construct_uml.py:108-115 | when one node is found, every listed node that passes is that one |
| PathFind.ManyHits | example/construct_uml.py:111-114 | more than one find in a list without repeats means two different nodes pass |
| PathFind.OneMatch | example/construct_uml.py:108-115 | `NotFound` exactly when no listed node passes; the answer exactly when one listed occurrence passes, and then it is the node that passes; otherwise `FoundMany` with the number of passing occurrences, two different nodes passing when the list has no repeats |
| PathFind.RepeatedMatchCounted | example/construct_uml.py:111-114 | a passing node listed twice makes the count 2 and the outcome the error `FoundMany(2)` |
| PathFind.FindOneIn | example/construct_uml.py:107-115 | a pattern `create_from` refuses gives `BadPattern` with its error; otherwise the outcome is exactly that of `OneMatch` on the list |
| PathFind.FindChildren | example/construct_uml.py:117-118 | fails exactly when `create_from` fails, with its error; otherwise a child is found exactly when the matcher accepts `/` plus its type name |
| PathFind.ChildPaths | example/construct_uml.py:117-121 | children are distinct and relative to their parent each has the path `/` plus its type name |
| PathFind.FindChild | example/construct_uml.py:120-121 | a refused pattern gives `BadPattern`; otherwise the outcome is `OneMatch` over the children, which are distinct |
| PathFind.OneChild | example/construct_uml.py:120-121 | over the children: `NotFound` exactly when no child passes on `/` plus its type name; otherwise the answer is a child of `self` that passes and every passing child is it; `FoundMany` means two different children pass |
| PathFind.WalkNodes | example/construct_uml.py:123-127 | the walk lists each node under `self` once and nothing else |
| PathFind.FindDecendants | example/construct_uml.py:123-124 | fails exactly when `create_from` fails, with its error; otherwise exactly the passing nodes under `self`, each once, in walk order |
| PathFind.FindDecendant | example/construct_uml.py:126-127 | a refused pattern gives `BadPattern`; otherwise the outcome is `OneMatch` over the walk, which has no repeats |
| PathFind.OneDescendant | example/construct_uml.py:126-127 | over the walk: `NotFound` exactly when no node under `self` passes; otherwise the answer is a passing node under `self` and every passing node under `self` is it; `FoundMany` means two different nodes pass |
| PathBuild.PathBuilder.constructor | example/construct_uml.py:169-178 | the builder holds `Build(program)` and its root is node 0 |
| PathBuild.PathBuilder.VisitObject | example/construct_uml.py:169-178 | the nodes become `Mirror` of the old nodes; a visit without a parent sets the root to the new node |
| PathBuild.MirrorFrame | example/construct_uml.py:175-178 | a visit below `q` keeps every older node, adds one child at the end of `q`, and the new node mirrors the visited one with parent `q` |
| PathBuild.MirrorValid | example/construct_uml.py:169-178 | a visit keeps the tree well formed (root first, parents before children, children linked, listed and ordered) |
| PathBuild.MirrorSources | example/construct_uml.py:169-178 | the new nodes mirror the visited subtree in preorder |
| PathBuild.MirrorChildren | example/construct_uml.py:175-178 | the parent gains the visited node's mirror as its last child, and every new node's children mirror its source's children |
| PathBuild.BuildShape | example/construct_uml.py:169-178 | the built tree is well formed, has one node per source node, in preorder, the first being the root |
| PathBuild.BuildChildren | example/construct_uml.py:169-178 | in the built tree every node's children mirror its source node's children, in order |
| PathBuild.MirrorWalk | example/construct_uml.py:169-178 | the walk from a newly visited node yields the other nodes that visit made, in the order they were made |
| PathBuild.BuildWalk | example/construct_uml.py:169-178 | the walk from the root of the built tree yields every other node in creation order, mirroring the source preorder |

## Left out

- Python's `re` engine in general: only the atoms `fn_to_re` emits are modelled, and `re.escape` is modelled as "every other character is a literal".
- `PatternMatches`: states the agreement with the glob meaning only for paths without a newline, because Python's `$` also matches before a final newline.
- `PathMatchTable.PathMatch`: the same newline restriction; the `'match'`/`'no match'` strings are a boolean.
- `CreateFrom`: a list containing a non-string fails inside `fn_to_re` (no `split`); the model reports this as `NonStringGlob` rather than as Python's `AttributeError`. `six.string_types` is modelled as `StrValue`, and a matcher is passed through by identity (`MatcherValue`).
- `Visitor.find_visitor_method` and `Visitor.visit` (construct_uml.py:26-35): the MRO lookup is left out. `PathBuilder.visit_object` is the only visitor method, so every visit reaches it; `VisitObject` calls itself directly.
- `PathWalk.Decendants`: the generator protocol is left out. Prune signals are a set of direct children fixed in advance, and the item that `send` itself returns (which a `for` loop calling `send` would then skip) is not modelled.
- `PathFind.FindIn`: `find_in` is a generator, so Python raises `create_from`'s error only at the first `next`; the model returns the error at once.
- `PathNode.root` (construct_uml.py:141-153): it refers to an undefined name `iterator` at line 151 and raises `NameError` whenever the node has a parent, so it has no behaviour worth modelling.
- `__str__` and `__repr__` (lines 92-96): string formatting only.
- Error message texts of `ValueError` are replaced by the constructors of `PatternError` and `FindError`; `FoundMany` keeps the count.
- The script parts of construct_uml.py (lines 1-11 reading the file and parsing Fortran, lines 180-332 printing the tree and emitting a UML description of the modules found) and the Fortran parser itself: I/O and a foreign library, outside this core.
- Object identity: path-tree nodes are indices into one sequence, and `root is self` is index equality.
