# hylite in Dafny

hylite collects *hylites*: short annotations written inside the comments of source files
(`hylite name: attr-a attr-b: free text`). A scanner reads each file, cuts its comments into
comment parts, finds every writing of a hylite in them, and parses each writing into a hylite set.
Each hylite set holds the hylites and a tree of `-`-separated attribute names. Views over a set
filter its hylites by name, by name group, or by attribute.

This project models the core of that program, the library `lib/rb/esus/hylib.rb`. It also models
the earlier variant `lib/rb/hylib.rb`. It proves what each part promises.

| module | file | models |
|---|---|---|
| `Strings` | strings.dfy | the Ruby string operations the library relies on: `index`, `each_line` with `chomp`, `split(/:/)`, `strip`, `sort` of child keys, `"%d"` |
| `Trie` | trie.dfy | `AttribNode` as an arena of nodes (root at index 0): `seek`, `seekMake`, `level`, `to_a`, `to_s`, `to_s_fancy`, `each_walker` |
| `Entity` | entity.dfy | `Hylite`: `add_attribute`, `anonymous?`, the name `name_str` finds, and `Location` |
| `Parsing` | parsing.dfy | `parse_hylite_string` on a hylite set as a value, and the invariant that hylites and nodes cite each other |
| `Views` | views.dfy | `HyliteSetView`, `EmptyHSV` and the builders `filter_name`, `filter_group`, `filter_attr`, as a datatype wrapping its source |
| `HyliteSets` | registry.dfy | `HyliteSet` as a class whose methods are the program's loops, each proved against the functions above |
| `Lexer` | lexer.dfy | the extension and comment-delimiter tables, `determine_type`, and the comment parts `fill_comment_part_buf` delivers over a whole file |
| `Extractor` | extractor.dfy | the grouping-delimiter table and the writings `next_hylite_part` delivers over a stream of comment parts |
| `Scanners` | scanner.dfy | `Scanner` as a class with its buffers, line counter and file cursor, and `find_all_hylites` |
| `LineHylites` | linehylite.dfy | `line_hylite` of both variants |
| `EarlyHylib` | early.dfy | the earlier variant: its `seekMake`, `parseHyliteString`, `determine_type`, `line_hylite`, punt-mode `findAllHylites` and `HyliteSet` |

The earlier variant's `seek`, `level`, `to_s` and `to_s_fancy` (lib/rb/hylib.rb:62-69 and
85-114) are the same code as the later ones. `EarlyHylib` therefore uses `Trie.Seek`,
`Trie.Level`, `Trie.ToS` and `Trie.ToSFancy` for them. Its own root is called `root`, not
`_Root`.

The two variants are written for different Rubies, and their regular-expression classes
differ. `lib/rb/hylib.rb` sets `$KCODE = 'u'` for Ruby 1.8. There `\s` is space, tab, line
feed, form feed and carriage return, without the vertical tab. There `\w` also takes every
character outside ASCII, so `hylite café: x` is named `name-café`. `EarlyHylib` uses these
classes (`Strings.IsOldRegexSpace`, `Strings.IsOldWordChar`). The later library has that line
commented out and declares its encoding, and its comments mention Ruby 1.9. Its `\w` is ASCII
only (`Strings.IsWordChar`). Its `\s` is taken as in Ruby 2.2 and later, where it includes the
vertical tab (`Strings.IsRegexSpace`). Under Ruby 1.9 to 2.1 `\s` lacks the vertical tab, like
`Strings.IsOldRegexSpace`. Both variants share
`Parsing.NameSubBy`, the name substitution over a given pair of classes.

The lexer and the extractor are stated twice. First as pure functions over the whole file:
`Lexer.Lex` gives every comment part, and `Extractor.ExtractAll` gives every writing. Second as
the methods of `Scanners.Scanner`, which work through the buffers one line and one part at a
time. Each method's contract ties what is buffered and what is still unread to those functions.
`Scanner.Stream()` is the comment parts still to come. `Scanner.Pending()` is the writings still
to come. `NextCommentPart` and `NextHylitePart` hand out the first of them.

### Behaviour that is easy to misread

The model keeps three behaviours of the code that are easy to misread:
- In `Text` files every line becomes an *unterminated* comment part (lib/rb/esus/hylib.rb:688).
- After the trigger `hylite`, only `:` or a space is accepted (lib/rb/esus/hylib.rb:545). A tab,
  any other white space, or the end of the part rejects it.
- The Perl, Ruby and YAML line-comment opener is the four-character string `\x23`
  (lib/rb/esus/hylib.rb:406-409), not `#`. A `#` comment yields nothing.

## Model

| member | source | states |
|---|---|---|
| Strings.IndexOf | lib/rb/esus/hylib.rb:542 | `index` answers the first position where the pattern occurs, and nil exactly when it occurs nowhere |
| Strings.IndexOfAtStart | lib/rb/esus/hylib.rb:217 | a string that starts with the pattern has it at index 0 |
| Strings.Segments | lib/rb/esus/hylib.rb:130-131 | the `each_line('-')` pieces after `chomp` contain no separator, and there are none exactly for the empty path |
| Strings.SegmentsRoundTrip | lib/rb/esus/hylib.rb:130-131 | joining the pieces with `-` gives the path back, less one trailing separator |
| Strings.SegmentsWhole | lib/rb/esus/hylib.rb:130-131 | a path without a separator is its only piece |
| Strings.SegmentsCut | lib/rb/esus/hylib.rb:130-131 | the first separator cuts the path into a first piece and the pieces of the rest |
| Strings.SplitAll | lib/rb/esus/hylib.rb:791 | the fields of `split(/:/)` contain no `:` and join back to the string |
| Strings.Strip | lib/rb/esus/hylib.rb:830 | `strip` leaves no white space at either end, and leaves nothing exactly when the string is all white space |
| Strings.BelowIrreflexive | lib/rb/esus/hylib.rb:283 | Ruby's string order never puts a string below itself |
| Strings.BelowAsymmetric | lib/rb/esus/hylib.rb:283 | no two strings are each below the other |
| Strings.BelowTotal | lib/rb/esus/hylib.rb:283 | of two different strings one is below the other |
| Strings.BelowTransitive | lib/rb/esus/hylib.rb:283 | the order is transitive |
| Strings.SortedKeys | lib/rb/esus/hylib.rb:283 | `keys.sort` lists exactly the keys |
| Strings.SortedKeysOrdered | lib/rb/esus/hylib.rb:283 | `keys.sort` is strictly ascending |
| Strings.SortedKeysDistinct | lib/rb/esus/hylib.rb:283 | `keys.sort` lists each key once |
| Strings.Decimal | lib/rb/esus/hylib.rb:60 | `"%d"` prints a non-empty string of digits |
| Strings.DecimalRoundTrip | lib/rb/esus/hylib.rb:60 | reading the printed digits back gives the number |
| Strings.DecimalInjective | lib/rb/esus/hylib.rb:60 | different counter values print differently |
| Trie.SeekSegments | lib/rb/esus/hylib.rb:128-135 | the walk over split segments answers a node of the tree or nil |
| Trie.Seek | lib/rb/esus/hylib.rb:128-135 | `seek` answers a node of the tree or nil |
| Trie.SeekSegmentsAppend | lib/rb/esus/hylib.rb:128-135 | seeking a path in two parts is seeking the second from where the first ends |
| Trie.SeekStopsAtMissing | lib/rb/esus/hylib.rb:130-134 | `seek` answers nil at the first missing segment, whatever follows |
| Trie.SeekKept | lib/rb/esus/hylib.rb:128-135 | a path found before the tree grew is found at the same node afterwards |
| Trie.AddChild | lib/rb/esus/hylib.rb:144-146 | a new node is appended with its parent set and entered in the parent's child map, and no other node changes |
| Trie.AddChildProperties | lib/rb/esus/hylib.rb:144-146 | adding a missing child keeps the tree well formed, keeps old nodes, and keeps every node linked into its parent |
| Trie.AddChildWellFormed | lib/rb/hylib.rb:76-80 | adding a child keeps the tree well formed, even when it replaces an existing child of that name |
| Trie.AddChildExtends | lib/rb/esus/hylib.rb:144-146 | adding a missing child only appends a node and a child-map entry |
| Trie.AddChildRegistered | lib/rb/esus/hylib.rb:144-146 | adding a missing child keeps every node linked into its parent |
| Trie.MakeSegments | lib/rb/esus/hylib.rb:137-150 | `seekMake` keeps the tree well formed and only extends it, its new nodes cite no hylite, and `seek` then finds its answer |
| Trie.Make | lib/rb/esus/hylib.rb:137-150 | the same, for a `-`-separated path |
| Trie.MakeWalk | lib/rb/esus/hylib.rb:137-150 | the loop of `seekMake` ends with the tree and node `Make` describes |
| Trie.MakeKeepsRegistered | lib/rb/esus/hylib.rb:143-147 | `seekMake` keeps every node linked into its parent's child map |
| Trie.MakeIdempotent | lib/rb/esus/hylib.rb:137-150 | on a path that already exists `seekMake` changes nothing and answers the node `seek` finds |
| Trie.MakeTwice | lib/rb/esus/hylib.rb:137-150 | a second `seekMake` of a path answers the same node and adds nothing |
| Trie.ToA | lib/rb/esus/hylib.rb:184-190 | `to_a` runs from the root's name to the node's own name |
| Trie.PathViews | lib/rb/esus/hylib.rb:152-190 | `level` is the number of links to the root and is 0 only for the root; `to_s` is `to_a` joined with `-`; `to_s_fancy` is nil for the root and otherwise the same path without the root |
| Trie.Walk | lib/rb/esus/hylib.rb:280-288 | every node visited lies after the start in the arena |
| Trie.WalkKeys | lib/rb/esus/hylib.rb:283-285 | the visits for a list of child keys stay below the node |
| Trie.WalkBelow | lib/rb/esus/hylib.rb:280-288 | every visited node lies strictly below the start |
| Trie.WalkNoDuplicates | lib/rb/esus/hylib.rb:280-288 | no node is visited twice |
| Trie.WalkNested | lib/rb/esus/hylib.rb:283-285 | below a visited node the whole walk of that node is visited too |
| Trie.WalkComplete | lib/rb/esus/hylib.rb:280-288 | when every node is linked into its parent, every node strictly below the start is visited |
| Trie.WalkVisitsSubtreeOnce | lib/rb/esus/hylib.rb:280-288 | the visitor is called exactly once for each node below the start, and never for the start |
| Trie.EachWalker | lib/rb/esus/hylib.rb:280-288 | `each_walker` hands the visitor the pre-order walk with children in ascending key order |
| Trie.Visit | lib/rb/esus/hylib.rb:281-286 | the `visit` lambda hands over the node unless it is the start, then walks its children in key order |
| Entity.AddAttribute | lib/rb/esus/hylib.rb:67-69 | `add_attribute` cites exactly the old attributes and the new one, appends at most one, and keeps the list free of duplicates |
| Entity.LastNameNone | lib/rb/esus/hylib.rb:53-58 | `name_str` finds no name exactly when no attribute's path starts `_Root`, `_Name` |
| Entity.LastNameIsLast | lib/rb/esus/hylib.rb:53-58 | the name found is the path of the last such attribute without its first two names, joined with `-` |
| Entity.AnonNamesDistinct | lib/rb/esus/hylib.rb:59-62 | anonymous hylites named with different counter values get different names |
| Entity.NamePathHasName | lib/rb/esus/hylib.rb:36-47 | an attribute whose path starts `_Root`, `_Name` passes the test of `anonymous?` |
| Entity.HasNameGivesNamePath | lib/rb/esus/hylib.rb:36-47 | when only the root is called `_Root`, passing that test means having such a path |
| Entity.AnonymousIffNoName | lib/rb/esus/hylib.rb:36-65 | a hylite `name_str` finds a name for is not `anonymous?`, and with `_Root` reserved it is `anonymous?` exactly when no name is found |
| Parsing.EmptyRegistry | lib/rb/esus/hylib.rb:257-260 | a new set, with a bare `_Root` and no hylites, satisfies the cross-link invariant |
| Parsing.ValidCites | lib/rb/esus/hylib.rb:817-834 | in a valid set every attribute of a hylite is a node of the tree |
| Parsing.LinkedBothWays | lib/rb/esus/hylib.rb:817-834 | in a valid set a node refers to a hylite exactly when the hylite cites the node |
| Parsing.Sections | lib/rb/esus/hylib.rb:791-793 | the name, attribute and text sections contain no `:`, and the name section starts the annotation |
| Parsing.SectionsUseThreeFields | lib/rb/esus/hylib.rb:791-793 | missing sections read as empty, and whatever follows a third `:` is dropped |
| Parsing.SectionsOfTwo | lib/rb/esus/hylib.rb:791-793 | `name:atts` has an empty text section |
| Parsing.SectionsOfThree | lib/rb/esus/hylib.rb:791 | `name:atts:text` splits into its three sections |
| Parsing.SectionsOfMore | lib/rb/esus/hylib.rb:791 | a fourth section is ignored |
| Parsing.NameSubByCapture | lib/rb/esus/hylib.rb:797 | for any classes of white space and name characters, `name.sub` turns `hylite`, white space, a run of name characters and the rest of the line into the prefix followed by exactly that run |
| Parsing.CaptureRuns | lib/rb/esus/hylib.rb:797 | the greedy `\s*`, `[-\w]*` and `.*` of the name pattern stop at the end of the white space, of the name run and of the line |
| Parsing.NameSubCapture | lib/rb/esus/hylib.rb:797 | `name.sub` turns `hylite`, white space, a run of name characters and the rest of the line into the prefix followed by that run |
| Parsing.AddRef | lib/rb/esus/hylib.rb:834 | `hyliteRefs << hylite` appends to that node only and changes no name, parent or child map |
| Parsing.Link | lib/rb/esus/hylib.rb:833-834 | cross-linking keeps the tree well formed and the sizes unchanged |
| Parsing.Resolve | lib/rb/esus/hylib.rb:797-826 | the resolved hylite exists in the resulting set |
| Parsing.AttachOne | lib/rb/esus/hylib.rb:831-834 | one token keeps the tree well formed and adds no hylite |
| Parsing.AttachAll | lib/rb/esus/hylib.rb:830-835 | the token loop keeps the tree well formed and adds no hylite |
| Parsing.AddText | lib/rb/esus/hylib.rb:838 | adding text changes neither the tree nor the number of hylites |
| Parsing.Parse | lib/rb/esus/hylib.rb:789-841 | parsing answers a hylite of the resulting set |
| Parsing.MakeKeepsValid | lib/rb/esus/hylib.rb:831 | `seekMake` on a valid set keeps it valid and only grows it |
| Parsing.AppendKeepsValid | lib/rb/esus/hylib.rb:799-800 | appending a fresh hylite keeps the set valid |
| Parsing.LinkKeepsValid | lib/rb/esus/hylib.rb:833-834 | cross-linking keeps the set valid and changes no other hylite; afterwards the hylite cites the node and the node refers to the hylite |
| Parsing.NameLeadsToKept | lib/rb/esus/hylib.rb:802-810 | once a name node leads to a hylite it keeps leading to it as the set grows |
| Parsing.ResolveEffect | lib/rb/esus/hylib.rb:797-826 | an anonymous annotation always gets a new empty hylite; a named one gets the first hylite of its name node, or a new hylite cross-linked with that node; nothing else changes |
| Parsing.AttachOneEffect | lib/rb/esus/hylib.rb:831-834 | one token keeps the set valid, `seek` then finds the token, and the hylite cites exactly what it cited before plus that node |
| Parsing.AttachAllKeepsValid | lib/rb/esus/hylib.rb:830-835 | the token loop keeps the set valid and changes no other hylite and no text |
| Parsing.AttachAllCites | lib/rb/esus/hylib.rb:830-835 | after the loop the hylite cites exactly what it cited before plus the node of each token |
| Parsing.AddTextEffect | lib/rb/esus/hylib.rb:838 | the text is appended exactly when it is not empty, and nothing is overwritten |
| Parsing.ParseKeepsValid | lib/rb/esus/hylib.rb:789-841 | parsing keeps the set valid, adds at most one hylite at the end, changes no other hylite, and appends the text section when it is not empty |
| Parsing.ParseCites | lib/rb/esus/hylib.rb:828-835 | the answered hylite cites exactly its old attributes, its name node when it is new and named, and the node of every attribute token |
| Parsing.ParseName | lib/rb/esus/hylib.rb:797-826 | an anonymous annotation always makes a new hylite, and a named one answers the hylite its name node leads to |
| Parsing.ParseMergesByName | lib/rb/esus/hylib.rb:802-825 | two annotations with the same name denote the same hylite, and the second adds none |
| Parsing.AddLocation | lib/rb/esus/hylib.rb:503 | the location is appended to that hylite only, and nothing else changes |
| Parsing.AddLocationKeepsValid | lib/rb/esus/hylib.rb:503 | recording a location keeps the set valid |
| Views.InGroupIsPrefix | lib/rb/esus/hylib.rb:215-218 | `name_str.index(group) == 0` holds exactly when the group is a prefix of the name, so the empty group selects every name |
| Views.NamesSettledKeepsValid | lib/rb/esus/hylib.rb:49-65 | caching names keeps the set valid, because no link depends on a name |
| Views.ShowsKept | lib/rb/esus/hylib.rb:49-65 | once a hylite's names are settled, caching other names later does not change whether it shows |
| Views.SelectNames | lib/rb/esus/hylib.rb:323-331 | a view yields only walked name nodes, and a filtered view only nodes some hylite refers to |
| Views.SelectAnon | lib/rb/esus/hylib.rb:333-337 | `each_anon` yields only hylites that exist |
| Views.SelectAnonExact | lib/rb/esus/hylib.rb:333-337 | `each_anon` yields exactly the anonymous hylites that show through the view |
| Views.SelectNamesExact | lib/rb/esus/hylib.rb:323-331 | a view's `each_name` yields exactly the walked name nodes whose first hylite shows, skipping nodes with none |
| Views.NothingShows | lib/rb/esus/hylib.rb:323-337 | a view through which no hylite shows yields no name and no anonymous hylite |
| Views.EmptyYieldsNothing | lib/rb/esus/hylib.rb:364-378 | `EmptyHSV`, and any view stacked on it, yields nothing |
| Views.IncludeExcludeModes | lib/rb/esus/hylib.rb:343-357 | mode `:include` hides exactly `@exclude`, and mode `:exclude` shows exactly `@include` |
| Views.StackingNarrows | lib/rb/esus/hylib.rb:323-337 | stacking a view on a view only narrows what is yielded |
| Views.FilterNameYields | lib/rb/esus/hylib.rb:197-205 | `filter_name(name)` yields exactly the nodes below `_Name` whose first hylite's name, once cached, is `name` |
| Views.FilterGroupYields | lib/rb/esus/hylib.rb:208-220 | `filter_group` yields exactly the anonymous hylites whose name, once cached, has one of the groups as a prefix, and nothing for no groups |
| Views.AttrRefs | lib/rb/esus/hylib.rb:231-237 | `found_any` is set exactly when something was merged into `@include` |
| Views.AttrRefsExact | lib/rb/esus/hylib.rb:231-237 | `@include` collects exactly the hylites of the nodes the paths find |
| Views.FilterAttrEmpty | lib/rb/esus/hylib.rb:239-243 | `filter_attr` answers an `EmptyHSV` exactly when no path finds a node that a hylite refers to |
| Views.FilterAttrKeeps | lib/rb/esus/hylib.rb:223-244 | `filter_attr` keeps exactly the anonymous hylites that cite a node one of the paths finds |
| HyliteSets.HyliteSet.constructor | lib/rb/esus/hylib.rb:257-260 | a new set is the empty set, valid, with the counter at 1 |
| HyliteSets.HyliteSet.Seek | lib/rb/esus/hylib.rb:128-135 | the loop of `seek` answers `Trie.Seek` |
| HyliteSets.HyliteSet.SeekMake | lib/rb/esus/hylib.rb:137-150 | the loop of `seekMake` leaves the tree and answers the node `Trie.Make` describes, and changes nothing else |
| HyliteSets.HyliteSet.Level | lib/rb/esus/hylib.rb:152-160 | the loop of `level` answers `Trie.Level` |
| HyliteSets.HyliteSet.IsAnonymous | lib/rb/esus/hylib.rb:36-47 | the loops of `anonymous?` answer whether the hylite is anonymous |
| HyliteSets.HyliteSet.FindName | lib/rb/esus/hylib.rb:53-58 | the attribute loop of `name_str` finds the name of the last name attribute |
| HyliteSets.HyliteSet.NameStr | lib/rb/esus/hylib.rb:49-65 | `name_str` answers the cached name without change; otherwise it caches the found name, or `_Anon-N` with the counter then moved on by one |
| HyliteSets.HyliteSet.Link | lib/rb/esus/hylib.rb:833-834 | cross-links node and hylite as `Parsing.Link` does |
| HyliteSets.HyliteSet.NameNode | lib/rb/esus/hylib.rb:802-806 | the name node is the one `seek` finds, or `seekMake` makes when `seek` misses |
| HyliteSets.HyliteSet.ResolveName | lib/rb/esus/hylib.rb:797-826 | the name half of `parse_hylite_string` leaves the set as `Parsing.Resolve` describes |
| HyliteSets.HyliteSet.AttachOne | lib/rb/esus/hylib.rb:831-834 | one token, as `Parsing.AttachOne` |
| HyliteSets.HyliteSet.AttachAll | lib/rb/esus/hylib.rb:830-835 | the token loop, as `Parsing.AttachAll` |
| HyliteSets.HyliteSet.AddText | lib/rb/esus/hylib.rb:838 | the text, as `Parsing.AddText` |
| HyliteSets.HyliteSet.AddLocation | lib/rb/esus/hylib.rb:503 | the location, as `Parsing.AddLocation`, keeping the set valid |
| HyliteSets.HyliteSet.Parse | lib/rb/esus/hylib.rb:789-841 | `parse_hylite_string` leaves the set as `Parsing.Parse` says, keeping it valid and the counter unchanged |
| HyliteSets.HyliteSet.EachAttr | lib/rb/esus/hylib.rb:274-276 | `each_attr` yields the walk from the root |
| HyliteSets.HyliteSet.LevelVisible | lib/rb/esus/hylib.rb:343-357 | `hylite_is_visible` of one level answers by the mode and caches the name when its decider needs one |
| HyliteSets.HyliteSet.Visible | lib/rb/esus/hylib.rb:323-337 | a hylite passes a stack of views exactly as `Views.Shows` says, and only names are cached on the way |
| HyliteSets.HyliteSet.AnyGroup | lib/rb/esus/hylib.rb:215-218 | `groups.any?` is true exactly when a group is a prefix of the hylite's name, and with any group given the name is computed and cached |
| HyliteSets.HyliteSet.JudgeName | lib/rb/esus/hylib.rb:324-330 | one name node is yielded exactly when `Views.SelectNames` takes it |
| HyliteSets.HyliteSet.EachName | lib/rb/esus/hylib.rb:323-331 | a view's `each_name` yields `Views.EachNameSpec`, and only names are cached on the way |
| HyliteSets.HyliteSet.EachAnon | lib/rb/esus/hylib.rb:333-337 | a view's `each_anon` yields `Views.EachAnonSpec`, and only names are cached on the way |
| HyliteSets.HyliteSet.FilterAttr | lib/rb/esus/hylib.rb:223-244 | the loop of `filter_attr` builds the view `Views.FilterAttrSpec` describes |
| Lexer.ExtensionMapInvertsTable | lib/rb/esus/hylib.rb:381-395 | an extension maps to a type exactly when the table lists it under that type |
| Lexer.ListedExtension | lib/rb/esus/hylib.rb:393-395 | every listed extension maps to its type |
| Lexer.LastDot | lib/rb/esus/hylib.rb:511 | the last `.` that still has a character after it, and no such `.` beyond it |
| Lexer.DetermineTypeOfExtension | lib/rb/esus/hylib.rb:509-519 | a file ending in `.x`, where `x` holds no `.`, gets the type of `x`, and `Text` for an unknown extension |
| Lexer.NoExtensionIsText | lib/rb/esus/hylib.rb:516-518 | a file name with no `.` before its last character is `Text` |
| Lexer.Delims | lib/rb/esus/hylib.rb:401-410 | the openers that exist are non-empty, and a type with block comments has a non-empty closer |
| Lexer.FirstOpener | lib/rb/esus/hylib.rb:704-724 | the chosen opener occurs where it says |
| Lexer.FirstOpenerIsFirst | lib/rb/esus/hylib.rb:704-724 | no opener of either kind occurs before the chosen one |
| Lexer.LexFromParts | lib/rb/esus/hylib.rb:682-781 | every comment part is a piece of one line, numbered after the line it comes from |
| Lexer.LexParts | lib/rb/esus/hylib.rb:682-781 | the same for every file type, `Text` included |
| Lexer.TextFromEach | lib/rb/esus/hylib.rb:684-691 | in `Text` mode each line is one part: stripped, unterminated, numbered after it |
| Lexer.LineComment | lib/rb/esus/hylib.rb:731-736 | a line comment yields the stripped rest of the line as one terminated part, and the line ends there |
| Lexer.OneLineBlock | lib/rb/esus/hylib.rb:738-752 | a block comment closed on its line yields its exact interior as one terminated part, and scanning goes on after the closer |
| Lexer.OpenerFirst | lib/rb/esus/hylib.rb:738-742 | when the block opener comes first, the line goes on with the text after it |
| Lexer.CloserFirst | lib/rb/esus/hylib.rb:745-751 | the text before the first closer is one terminated part |
| Lexer.InsideBlock | lib/rb/esus/hylib.rb:771-773 | lines inside an open block comment are stripped, unterminated, and numbered after their lines |
| Lexer.BlockLines | lib/rb/esus/hylib.rb:758-774 | inside a block comment, each line without the closer is one stripped, unterminated part |
| Lexer.BlockCloses | lib/rb/esus/hylib.rb:758-770 | the closing line yields the unstripped text before the closer as a terminated part, and the rest of that line is scanned again |
| Lexer.BlockToEnd | lib/rb/esus/hylib.rb:758-761 | a block never closed runs to the end of the file, which just ends it |
| Lexer.HashIsNotAnOpener | lib/rb/esus/hylib.rb:406-409 | a Ruby `#` comment yields no comment part |
| Lexer.BackslashX23IsTheOpener | lib/rb/esus/hylib.rb:406-409 | the four characters `\x23` do open a Ruby line comment |
| Lexer.LexLineStep | lib/rb/esus/hylib.rb:702-742 | one pass of the `while line` loop: no opener ends the line; a line comment first yields its stripped rest; a block comment first goes on after the opener |
| Lexer.BlockOpenStep | lib/rb/esus/hylib.rb:745-756 | after a block opener: a closer on the line yields a terminated part and the rest is scanned; otherwise the rest of the line is an unterminated part and the following lines are read |
| Lexer.BlockContStep | lib/rb/esus/hylib.rb:758-774 | one line inside a block comment: nothing at the end of the file, the closing part, or one more stripped part |
| Lexer.LexStep | lib/rb/esus/hylib.rb:682-700 | the parts from line `k` on: none at the end of the file, otherwise those of line `k` |
| Lexer.BlockContCloses | lib/rb/esus/hylib.rb:763-770 | the closing line's part follows those already buffered |
| Lexer.BlockOpenCloses | lib/rb/esus/hylib.rb:745-751 | a block closed on the line it opens on yields its interior as a terminated part after those already buffered, and the line goes on after the closer |
| Lexer.BlockContGoesOn | lib/rb/esus/hylib.rb:771-773 | a line without the closer adds one stripped, unterminated part |
| Lexer.LineHasNoComment | lib/rb/esus/hylib.rb:726-729 | a piece of line with no opener yields nothing more |
| Lexer.LineCommentFirst | lib/rb/esus/hylib.rb:731-736 | a line comment first: the stripped rest of the line is one terminated part |
| Lexer.BlockCommentFirst | lib/rb/esus/hylib.rb:738-742 | a block comment first: the line goes on after the opener |
| Lexer.BlockOpenAtEnd | lib/rb/esus/hylib.rb:753-756 | a block left open: the rest of the line is one unterminated part, then the block goes on |
| Lexer.CloserNotEmpty | lib/rb/esus/hylib.rb:401-410 | a type with block comments has a non-empty closer |
| Extractor.Closer | lib/rb/esus/hylib.rb:412-426 | each closer is non-empty and does not start with a letter of `hylite` |
| Extractor.RecaptureIsLeftNeighbour | lib/rb/esus/hylib.rb:553-556 | on a piece of one line the regular expression recaptures exactly the character before the first trigger |
| Extractor.ExtractAllTriggered | lib/rb/esus/hylib.rb:532-671 | every writing the extractor yields is empty or starts with `hylite` |
| Extractor.RejectedTriggerSkipped | lib/rb/esus/hylib.rb:545-548 | a trigger followed by anything but `:` or a space is skipped together with the character after it |
| Extractor.TriggerAtEndRejected | lib/rb/esus/hylib.rb:545-548 | a trigger at the very end of a part is rejected too, and ends the part |
| Extractor.GroupedWriting | lib/rb/esus/hylib.rb:593-605 | a grouped writing closed after its trigger is the text between them; only one character of the closer is skipped, so the rest of a two-character closer is scanned again |
| Extractor.ScanGroups | lib/rb/esus/hylib.rb:552-563 | an accepted trigger right after a grouping character starts a grouped writing |
| Extractor.GroupedCloses | lib/rb/esus/hylib.rb:593-605 | a grouped writing whose closer follows the trigger is the text between them, and the part is scanned again from the character after the closer's first |
| Extractor.ClosedBeforeTrigger | lib/rb/esus/hylib.rb:593-605 | a closer before the trigger yields an empty writing, and the part is scanned again from the character after the closer's first |
| Extractor.CloserBeforeTrigger | lib/rb/esus/hylib.rb:593 | the closer is searched from the start of the part: `a) (hylite x: y)` yields an empty writing and then `hylite x: y` |
| Extractor.StrayCloser | lib/rb/esus/hylib.rb:604-605 | the empty writing is followed by a scan of what comes after the stray closer |
| Extractor.ParenthesisedWriting | lib/rb/esus/hylib.rb:593-605 | ` (hylite x: y)` yields `hylite x: y` |
| Extractor.TabRejectsTrigger | lib/rb/esus/hylib.rb:545 | a tab after the trigger rejects it |
| Extractor.ContinueSkips | lib/rb/esus/hylib.rb:579-584 | an ungrouped writing goes on through unterminated parts, each joined after a space |
| Extractor.ContinueRuns | lib/rb/esus/hylib.rb:579-588 | it ends with the first part that ends the comment, and scanning goes on after that part |
| Extractor.ContinueToEnd | lib/rb/esus/hylib.rb:579-588 | or it ends with the end of the file |
| Extractor.GroupContSkips | lib/rb/esus/hylib.rb:648-652 | a grouped writing goes on through parts that neither hold its closer nor end the comment |
| Extractor.GroupContRuns | lib/rb/esus/hylib.rb:642-646 | a grouped writing whose closer is missing ends with the first part that ends the comment |
| Extractor.GroupContCloses | lib/rb/esus/hylib.rb:627-640 | a continued grouped writing ends before the first closer on a later part, and that part is scanned again from the character after the closer's first |
| Extractor.GroupContToEnd | lib/rb/esus/hylib.rb:621-623 | a grouped writing with no closer to the end of the file ends with it |
| Extractor.ExtractAllCons | lib/rb/esus/hylib.rb:533-540 | the writings of a stream are those of its first part, scanned with the rest behind it |
| Extractor.ScanStep | lib/rb/esus/hylib.rb:540-549 | a part with no trigger holds no more writings, and a rejected trigger is skipped |
| Extractor.ScanUngrouped | lib/rb/esus/hylib.rb:566-589 | an ungrouped writing ends with its part when the part is terminated or the file is `Text`, and goes on otherwise |
| Extractor.GroupedStep | lib/rb/esus/hylib.rb:591-658 | the three ends of a grouped writing on its own part: closer found, comment ended, or goes on |
| Extractor.ContinueStep | lib/rb/esus/hylib.rb:579-584 | one more part of an ungrouped writing is appended after a space |
| Extractor.GroupContStep | lib/rb/esus/hylib.rb:621-654 | one more part of a grouped writing: closed, ended, or appended |
| Scanners.ParseOne | lib/rb/esus/hylib.rb:501-503 | parsing one writing keeps the set valid |
| Scanners.ParseParts | lib/rb/esus/hylib.rb:499-504 | the loop over the writings keeps the set valid, and with no writings changes nothing |
| Scanners.ParsePartsFails | lib/rb/esus/hylib.rb:791-797 | the loop gets through exactly when every writing has a name section |
| Scanners.ParsePartsStep | lib/rb/esus/hylib.rb:499-504 | a writing with a name section is parsed and the loop goes on; otherwise the scan stops there |
| Scanners.ScanFile | lib/rb/esus/hylib.rb:482-507 | scanning a file keeps the set valid |
| Scanners.TriggeredSplittable | lib/rb/esus/hylib.rb:791 | among writings that are empty or start with the trigger, exactly the non-empty ones have a name section |
| Scanners.ScanFailsOnEmptyWriting | lib/rb/esus/hylib.rb:791-797 | a scan fails exactly when the extractor yields an empty writing |
| Scanners.Scanner.constructor | lib/rb/esus/hylib.rb:471-479 | a new scanner has type `Text`, empty buffers and its line counter at zero |
| Scanners.Scanner.Gets | lib/rb/esus/hylib.rb:698-700 | `gets` answers the next line and moves the cursor, or nil at the end of the file |
| Scanners.Scanner.ContinueBlockLine | lib/rb/esus/hylib.rb:758-774 | one turn of the loop inside an open block comment buffers what `Lexer.BlockContStep` says |
| Scanners.Scanner.BlockLine | lib/rb/esus/hylib.rb:763-773 | a line read inside a block comment buffers its closing part or its stripped text |
| Scanners.Scanner.ClosingLine | lib/rb/esus/hylib.rb:763-770 | the closing line buffers the text before the closer, terminated, and answers the rest of the line |
| Scanners.Scanner.ContinueBlock | lib/rb/esus/hylib.rb:758-774 | the loop reads lines until one holds the closer, buffering what `Lexer.BlockCont` says, or stops at the end of the file |
| Scanners.Scanner.BlockComment | lib/rb/esus/hylib.rb:738-775 | the block comment that comes first on the line buffers what `Lexer.BlockOpen` says |
| Scanners.Scanner.BlockClosed | lib/rb/esus/hylib.rb:745-751 | a block closed on its line buffers its interior, terminated, and answers the rest after the closer |
| Scanners.Scanner.BlockLeftOpen | lib/rb/esus/hylib.rb:753-774 | a block left open buffers the rest of the line, unterminated, and then the lines of the block |
| Scanners.Scanner.LineComment | lib/rb/esus/hylib.rb:731-736 | a line comment buffers the stripped rest of the line, terminated |
| Scanners.Scanner.ScanComment | lib/rb/esus/hylib.rb:702-779 | one turn of the `while line` loop buffers the first comment of what is left of the line |
| Scanners.Scanner.BlockCommentAt | lib/rb/esus/hylib.rb:738-742 | a block opener first: what follows it is scanned as a block comment |
| Scanners.Scanner.ScanLine | lib/rb/esus/hylib.rb:702-780 | the `while line` loop buffers every comment of the line just read, and the lines of a block it leaves open |
| Scanners.Scanner.FillCommentPartBuf | lib/rb/esus/hylib.rb:682-781 | filling the buffer keeps the comment parts still to come unchanged, and leaves the buffer empty only at the end of the file |
| Scanners.Scanner.NextCommentPart | lib/rb/esus/hylib.rb:673-677 | `next_comment_part` answers the first comment part still to come and drops it, or nil when none is left |
| Scanners.Scanner.ContinueWriting | lib/rb/esus/hylib.rb:574-588 | an ungrouped writing in a comment that goes on is buffered as `Extractor.Continue` says |
| Scanners.Scanner.GroupContinue | lib/rb/esus/hylib.rb:616-657 | a grouped writing open at the end of its part is buffered as `Extractor.GroupCont` says |
| Scanners.Scanner.ScanPart | lib/rb/esus/hylib.rb:540-664 | the `while part` loop buffers the writings `Extractor.Scan` finds in the part |
| Scanners.Scanner.ScanText | lib/rb/esus/hylib.rb:540-549 | one turn of that loop consumes input and keeps the writings still to come |
| Scanners.Scanner.ScanWriting | lib/rb/esus/hylib.rb:552-566 | an accepted trigger starts a grouped writing when an opener precedes it, and an ungrouped one otherwise |
| Scanners.Scanner.UngroupedWriting | lib/rb/esus/hylib.rb:566-589 | an ungrouped writing runs to the end of its part, and on through the comment when the part is unterminated |
| Scanners.Scanner.GroupedWriting | lib/rb/esus/hylib.rb:591-658 | a grouped writing ends at a closer in its part, or is continued |
| Scanners.Scanner.GroupLeftOpen | lib/rb/esus/hylib.rb:608-658 | a grouped writing with no closer in its part ends with a terminated part, or goes on over the following parts |
| Scanners.Scanner.NextHylitePart | lib/rb/esus/hylib.rb:532-671 | `next_hylite_part` answers the first writing still to come and drops it, or nil when none is left |
| Scanners.Scanner.ParseWriting | lib/rb/esus/hylib.rb:501-503 | one writing is parsed into the set and its location recorded, as `Scanners.ParseOne` says |
| Scanners.Scanner.FindAllHylites | lib/rb/esus/hylib.rb:482-507 | `find_all_hylites` leaves the set and reports success as `Scanners.ScanFile` says, keeping the set valid |
| LineHylites.LastTrigger | lib/rb/esus/hylib.rb:522 | the last trigger at or before a position, and no trigger after it |
| LineHylites.LineHyliteBy | lib/rb/esus/hylib.rb:522 | a capture starts with `hylite` and a character of the class |
| LineHylites.LineHylite | lib/rb/esus/hylib.rb:521-530 | `line_hylite` answers nil or a capture starting with `hylite` |
| LineHylites.LineHyliteByLast | lib/rb/esus/hylib.rb:522-523 | on one line the capture runs from the last trigger to the end of the line |
| LineHylites.LineHyliteAt | lib/rb/esus/hylib.rb:522-523 | the capture of a line whose last trigger is at a given position is the rest of the line from there |
| LineHylites.LineHyliteByNone | lib/rb/esus/hylib.rb:521-528 | the capture is nil exactly when no line holds a trigger |
| LineHylites.LineHyliteAnonymous | lib/rb/esus/hylib.rb:524-525 | without a white-space trigger anywhere, the anonymous form `hylite:` is taken, to the end of the line |
| LineHylites.LineHyliteSpaceFirst | lib/rb/esus/hylib.rb:522-525 | a white-space trigger anywhere wins over the anonymous form |
| EarlyHylib.OldEmpty | lib/rb/hylib.rb:120-123 | a new early set, with a bare `root` and no hylites, is valid |
| EarlyHylib.OldMakeSegmentsEffect | lib/rb/hylib.rb:71-83 | the early `seekMake` keeps the tree well formed, keeps the old nodes' names, parents and references, gives its new nodes no hylite, and `seek` then finds its answer |
| EarlyHylib.OldMake | lib/rb/hylib.rb:71-83 | the same, for a `-`-separated path |
| EarlyHylib.OldMakeWalk | lib/rb/hylib.rb:71-83 | the loop of the early `seekMake` ends with the tree and node `OldMake` describes |
| EarlyHylib.OldMakeTrailing | lib/rb/hylib.rb:73-75 | when every piece ends in `-`, the early `seekMake` is the later one |
| EarlyHylib.OldMakeMissing | lib/rb/hylib.rb:75-80 | when `seek` misses, the early `seekMake` answers a new node |
| EarlyHylib.OldMakeWithDash | lib/rb/hylib.rb:71-83 | a path ending in `-` is made as the later `seekMake` makes it |
| EarlyHylib.OldMakeReplacesLast | lib/rb/hylib.rb:75-79 | without a trailing `-`, all pieces but the last are made as the later `seekMake` makes them, and the last always gets a new child |
| EarlyHylib.OldMakeFresh | lib/rb/hylib.rb:75-80 | without a trailing `-`, the early `seekMake` of a non-empty path answers the node it just added |
| EarlyHylib.OldMakeTwiceDiffers | lib/rb/hylib.rb:71-83 | a second early `seekMake` of the same path answers another node than the first, and `seek` now finds the second |
| EarlyHylib.OldLink | lib/rb/hylib.rb:280-281 | the node is appended to the hylite's attributes and the hylite to the node's references, with no check for repeats |
| EarlyHylib.OldResolve | lib/rb/hylib.rb:247-275 | the resolved hylite exists, and the tree stays well formed |
| EarlyHylib.OldAttachOne | lib/rb/hylib.rb:279-281 | one token keeps the tree well formed and adds no hylite |
| EarlyHylib.OldAttachAll | lib/rb/hylib.rb:278-282 | the token loop keeps the tree well formed and adds no hylite |
| EarlyHylib.OldAddText | lib/rb/hylib.rb:285 | the text is appended exactly when it is not empty |
| EarlyHylib.OldNameSubCapture | lib/rb/hylib.rb:247 | the early `name.sub` turns `hylite`, Ruby 1.8 white space, a run of name characters (non-ASCII ones included) and the rest of the line into the prefix followed by exactly that run |
| EarlyHylib.OldNameSubAccented | lib/rb/hylib.rb:247 | `hylite café` is named `name-café`: the accented letter stays in the name |
| EarlyHylib.OldParse | lib/rb/hylib.rb:240-288 | parsing answers a hylite of the resulting set |
| EarlyHylib.OldMakeKeepsValid | lib/rb/hylib.rb:255 | `seekMake` keeps an early set valid |
| EarlyHylib.OldLinkKeepsValid | lib/rb/hylib.rb:280-281 | cross-linking keeps an early set valid |
| EarlyHylib.OldResolveEffect | lib/rb/hylib.rb:247-275 | a name node with a hylite answers its first hylite and changes nothing; otherwise a new hylite is appended, with no attribute when anonymous and its name node when named |
| EarlyHylib.OldResolveMade | lib/rb/hylib.rb:252-256 | a name `seek` misses is made, and the new node refers to no hylite yet |
| EarlyHylib.OldResolveLinked | lib/rb/hylib.rb:263-274 | a name node without hylites gets a new hylite, cross-linked with it |
| EarlyHylib.OldAttachOneEffect | lib/rb/hylib.rb:279-281 | one token appends to the hylite exactly the node the token now leads to, and that node's last reference is the hylite |
| EarlyHylib.OldAttachOneFresh | lib/rb/hylib.rb:278-281 | a token without a trailing `-` gets a node of its own that refers to the hylite only |
| EarlyHylib.OldAttachAllEffect | lib/rb/hylib.rb:278-282 | the loop appends exactly one attribute per token, repeats included, and changes no text and no other hylite |
| EarlyHylib.OldParseEffect | lib/rb/hylib.rb:240-288 | parsing keeps the set valid, adds at most one hylite at the end, and changes no other hylite |
| EarlyHylib.OldResolveTwice | lib/rb/hylib.rb:252-274 | a name resolved a second time gives the same hylite and changes nothing |
| EarlyHylib.OldExtensionType | lib/rb/hylib.rb:142-153 | the early map knows only its six types, and of the one-character extensions exactly `c` and `h` are known, both as `C` |
| EarlyHylib.LastDotAnywhere | lib/rb/hylib.rb:203 | the last `.` before a position, wherever it stands |
| EarlyHylib.OldDetermineTypeCOrText | lib/rb/hylib.rb:201-211 | the early `determine_type` only ever answers `C` or `Text` |
| EarlyHylib.OldTypeOfExtension | lib/rb/hylib.rb:201-211 | a file ending in `.x`, where `x` holds no `.`, is `C` exactly when `x` starts with `c` or `h`, so `Foo.java` is `Text` |
| EarlyHylib.OldLineHylite | lib/rb/hylib.rb:213-219 | the early `line_hylite` answers a capture that starts with `hylite` and Ruby 1.8 white space (no vertical tab), and nil exactly when the line holds no such trigger |
| EarlyHylib.CapturedLines | lib/rb/hylib.rb:185-187 | the indexes of the lines on which `line_hylite` finds a hylite: every such line, ascending, and no other |
| EarlyHylib.OldPunt | lib/rb/hylib.rb:185-191 | the punt-mode loop parses each capture into the set, keeping it valid and losing no hylite |
| EarlyHylib.OldParseGrows | lib/rb/hylib.rb:188 | one `parseHyliteString` keeps the set valid and removes no hylite |
| EarlyHylib.OldPuntNothingFound | lib/rb/hylib.rb:185-191 | a file in which no line holds a hylite leaves the set unchanged and records no location |
| EarlyHylib.OldPuntRecords | lib/rb/hylib.rb:185-191 | there is one `Location` per line with a hylite, in line order, carrying that line's index, on a hylite of the resulting set |
| EarlyHylib.OldLineHyliteParsable | lib/rb/hylib.rb:186-188 | a capture of `line_hylite` has a name section, so `parseHyliteString` accepts it |
| EarlyHylib.OldPuntAfter | lib/rb/hylib.rb:185-191 | the records of the lines already scanned stay at the front |
| EarlyHylib.OldPuntSkip | lib/rb/hylib.rb:187 | a line without a hylite is passed over |
| EarlyHylib.OldPuntParse | lib/rb/hylib.rb:187-190 | a line with a hylite is parsed into the set, and its record, naming the hylite parsing answered, follows those before it |
| EarlyHylib.OldHyliteSet.ScanLine | lib/rb/hylib.rb:186-190 | one turn of the loop keeps the set valid and leaves the scan's outcome as it was |
| EarlyHylib.OldHyliteSet.FindAllHylites | lib/rb/hylib.rb:178-191 | the in-place loop over the lines leaves the set and the locations as `OldPunt` says |
| EarlyHylib.OldHyliteSet.constructor | lib/rb/hylib.rb:120-123 | a new early set is `OldEmpty` |
| EarlyHylib.OldHyliteSet.Link | lib/rb/hylib.rb:280-281 | cross-links as `OldLink` does |
| EarlyHylib.OldHyliteSet.ResolveName | lib/rb/hylib.rb:247-275 | the name part of `parseHyliteString` leaves the set as `OldResolve` says |
| EarlyHylib.OldHyliteSet.Parse | lib/rb/hylib.rb:240-288 | `parseHyliteString` leaves the set as `OldParse` says |
| EarlyHylib.OldHyliteSet.EachName | lib/rb/hylib.rb:125-139 | `each_name` yields nothing without a `name` node; otherwise it yields every node below it once, in pre-order, never the node itself |

## Left out

- `WorkingSet` and `ManualSet` (lib/rb/esus/hylib.rb:845-914): globbing files, loading YAML and checking readability are file-system work.
- Opening and reading files: a file is the sequence of its lines, as `gets` returns them, each with its line feed.
- The punt-mode branch of `find_all_hylites` (lib/rb/esus/hylib.rb:488-495) is switched off by `@@punt_mode = false` and is not modelled. Its `line_hylite` is, in `LineHylites`.
- The early `findAllHylites` (lib/rb/hylib.rb:178-199) runs in punt mode (`@@punt_mode = true`, lib/rb/hylib.rb:170). Its branch at lines 185-191 is modelled as `EarlyHylib.OldPunt` and `EarlyHylib.OldHyliteSet.FindAllHylites`, over the file's lines. Its dead else-branch (lines 192-197) is not modelled. It opens the file with a block that `File.new` ignores.
- EarlyHylib.OldPunt: `hy.locations << Location.new(@file, ix)` is kept as one scan record per capture: the hylite and its `Location`. The records are not stored on the early `Hylite` value. A hylite's `locations` are its records, in order.
- The `rescue` of `fill_comment_part_buf` (lib/rb/esus/hylib.rb:783-786) prints and re-raises. Nothing in the model raises.
- The `Regexp` branch of `filter_name` (lib/rb/esus/hylib.rb:199-200): it needs a regular-expression engine. Only the string branch is modelled.
- The `to_s` displays of `Hylite`, `Location`, `CommentPart` and `HylitePart`: formatting only.
- `each_attr` of `HyliteSetView` (lib/rb/esus/hylib.rb:339-341) raises as written: it passes its proc as a positional argument to `HyliteSet#each_attr` (lib/rb/esus/hylib.rb:274), which takes only a block. `EmptyHSV` has no `each_attr`. Only `HyliteSets.HyliteSet.EachAttr` is modelled.
- `filter_attr` reads `@attribTree`, which only a `HyliteSet` has. It is modelled on the set itself, not on a view.
- The stub `nextHylite` (lib/rb/hylib.rb:226-238) does nothing.
- `@@anon_id` is a class variable shared by every set. Here it is the field `anonId` of each `HyliteSets.HyliteSet`, and starts at 1.
- lib/rb/esus/hyt.rb and lib/rb/hyt.rb are not part of this model.
- Parsing.Parse: requires a character other than `:`. For an annotation with none, `split(/:/)` has no first field and `name.sub` raises on nil; the model states this as a precondition. `Scanners.ScanFile` reports such a writing as a failed scan, and `Scanners.ScanFailsOnEmptyWriting` shows that only the empty writing a stray closer produces can cause it.
- EarlyHylib.OldParse: the same precondition, for the same reason.
- Extractor.RecaptureIsLeftNeighbour: `/(.)hylite/` is modelled as the character before the trigger. This is proved only for parts with no line feed before their last character, which is what the lexer delivers (`Lexer.LexFromParts`).
- Lexer.DetermineType: `.` in `/.*\.(.+)/` does not match a line feed. File names are taken to hold none.
- EarlyHylib.OldDetermineType: `.` in `/.*\.(.?)/` does not match a line feed, so Ruby looks at the last `.` of the first line that has one. `EarlyHylib.LastDotAnywhere` looks at the last `.` of the whole name. File names are taken to hold no line feed.
- Lexer.Lex: a `Text` file is given empty delimiters and never consults them.
- EarlyHylib.OldResolveTwice: in the early variant two annotations with the same name need not share their hylite. An attribute token such as `name` or `name-x` without a trailing `-` replaces the name node (lib/rb/hylib.rb:75-79). Merging is therefore stated for a second resolution of the name alone, not for two whole parses.
- HyliteSets.HyliteSet.Visible: evaluates a stack of views level by level, innermost first, rather than through Ruby's nested blocks. Only the innermost decider meets a hylite whose name is not yet cached, so the same names and counter values result.
- Trie.ToS, Trie.ToSFancy and Trie.Level carry no contract of their own. What they compute is stated in `Trie.PathViews`.

## Findings

| source | as written | input that shows it | evidently intended | confidence | as-written member | corrected member |
|---|---|---|---|---|---|---|
| lib/rb/hylib.rb:71-83 | the lookup uses the result of `chomp!('-')`, which is nil for the last piece of a path without a trailing `-`, so that lookup always misses and a new node replaces the existing child | `seekMake("x")` twice on the same tree: the second call answers a different node than the first | reuse the existing child, as `seekMake` of lib/rb/esus/hylib.rb:137-150 does by calling `chomp!` first and then looking up the piece | not executed | EarlyHylib.OldMakeTwiceDiffers | Trie.MakeTwice |
| lib/rb/hylib.rb:203 | `/.*\.(.?)/` captures at most one character after the last `.` | `Foo.java`: the capture is `j`, which the map lacks, so the type is `Text` rather than `java` | capture the whole extension, as `/.*\.(.+)/` of lib/rb/esus/hylib.rb:511 does | not executed | EarlyHylib.OldTypeOfExtension | Lexer.DetermineTypeOfExtension |
