# Style-key lookup of the Snoop WPF inspector, in Dafny

Snoop shows a UI element's `Style` by name where it can. The converter `StyleKeyConverter`
takes a `Style` and the `FrameworkElement` it styles. It asks
`ResourceDictionaryKeyHelpers.GetKeyOfStyle` for the key under which the element's Style is
registered. The search looks in the element's own `Resources` first. It then walks upward
through the element's ancestors. Last, it looks in the running `Application`'s resources.
Each dictionary is searched by `FindNameFromResource`: first its own entries, then its merged
dictionaries, depth-first. When a non-empty key is found, the converter returns a
`StyleKeyPair`. Otherwise it hands the Style back unchanged.

The WPF object model is replaced by plain data (`wpf.dfy`):

- an object is an identity (`ObjId`) plus its runtime kind (Style, other DependencyObject, or
  anything else) and its `IsSealed` flag;
- a resource dictionary is a sequence of (string key, possibly-null reference) entries in
  enumeration order, plus a sequence of merged dictionaries;
- the element tree is a finite map from node ids to nodes. A node is either a
  `FrameworkElement` (Style, Resources, logical parent, visual parent) or another Visual,
  of which only the visual parent is read;
- `Application.Current` is an optional dictionary.

Modules, one per part of `Snoop/Converters/StyleKeyConverter.cs`:

- `FindName` (`find_name.dfy`): `FindNameFromResource` and the loop over merged dictionaries,
  as a pair of mutually recursive functions. `Flatten` gives the depth-first list of all
  entries, which serves as the reference definition.
- `KeyOfStyle` (`key_of_style.dfy`): `GetKeyOfStyle` as a method with the source's `while`
  loop. It is proved equal to the specification function `KeyOf`, which is built from the
  visited-node sequence `Ancestors` and the first-hit search `FirstHit`. The precedence
  lemmas are about `KeyOf`.
- `StyleKeyConverter` (`style_key_converter.dfy`): `Convert` and `ConvertBack`.

The upward walk has a step that mixes two parent notions. The first step is always the
element's visual parent. After that, a FrameworkElement with a logical parent moves to it, and
every other node moves to its visual parent. A node that is not a FrameworkElement is passed
over without a lookup. The walk is taken only when the element has a Style that its own
resources do not name, and it stops at the first node that yields a name. Nothing in the
source bounds the walk. The model therefore asks for a ghost `rank` map (`WalkRanked`): the
element's visual parent is ranked, and the rank decreases along every step taken from a ranked
node that yields no name (`Ranked`). Nodes the walk does not visit need no rank: nodes past
the first one that yields a name, and every node when the element's own resources already name
its Style. The element's own logical-parent step is never taken (line 73), so its logical
parent needs a rank only when the walk reaches it through the visual parent, as it does when
the two are the same node. `EndingWalkIsRanked` shows that every walk that
ends admits such a rank, and `Ancestors` shows the converse. So the model excludes exactly the
elements whose walk runs forever in the source.

Two consequences of the code are worth stating:

- The walk's first step is always the element's visual parent, even when the element has a
  logical parent (line 73). `FirstStepIgnoresLogicalParent` shows an element whose logical
  parent leads back to it, yet whose walk ends.
- A sealed Style or DependencyObject is never found (lines 109-113). `SealedStyleHasNoKey`
  shows that an element whose Style is sealed never gets a key from `GetKeyOfStyle`.

## Model

| member | source | states |
|---|---|---|
| `FindName.FirstKey` | Snoop/Converters/StyleKeyConverter.cs:115-121 | null exactly when no entry holds the target; otherwise the key of an entry holding the target, with no earlier entry holding it (the first match in enumeration order) |
| `FindName.FindNameFromResource` | Snoop/Converters/StyleKeyConverter.cs:107-136 | a sealed Style or DependencyObject is never found (null); any non-null result is the key of an entry, in the dictionary or a merged descendant, whose value is the item itself, so an item registered nowhere gives null |
| `FindName.FindInMerged` | Snoop/Converters/StyleKeyConverter.cs:123-133 | a result from the merged dictionaries is never empty, and is the key of an entry holding the item somewhere in them; sealed items give null |
| `FindName.OwnEntriesFirst` | Snoop/Converters/StyleKeyConverter.cs:115-121 | for an unsealed item, the first own entry holding it decides the result, before any merged dictionary is looked at |
| `FindName.MergedInDeclaredOrder` | Snoop/Converters/StyleKeyConverter.cs:123-133 | the first merged dictionary, in declared order, that yields a non-empty name decides; those before it yielded null or "" |
| `FindName.NoNonEmptyMergedNameGivesNull` | Snoop/Converters/StyleKeyConverter.cs:123-135 | when no merged dictionary yields a non-empty name, the merged-dictionary loop yields null |
| `FindName.FindIsDepthFirst` | Snoop/Converters/StyleKeyConverter.cs:107-136 | unless the item is registered under "" below the top level, the search for an unsealed item equals the first match in the depth-first list of all entries |
| `FindName.FindInMergedIsDepthFirst` | Snoop/Converters/StyleKeyConverter.cs:123-133 | the same equality for the merged-dictionary loop, unless the item is registered under "" in one of them |
| `FindName.EmptyOwnKeySkipsDictionary` | Snoop/Converters/StyleKeyConverter.cs:115-131 | a merged dictionary whose own entries hold the item under "" yields "" without searching its own merged dictionaries, and the loop goes on with the dictionaries after it as if it were absent |
| `FindName.TopLevelEmptyKeyIsReturned` | Snoop/Converters/StyleKeyConverter.cs:115-121 | for example, a dictionary whose one own entry holds the item under the empty key yields "" (the general fact is `OwnEntriesFirst` with a "" key) |
| `FindName.EmptyMergedKeyHidesDeeperEntries` | Snoop/Converters/StyleKeyConverter.cs:125-131 | for example, an empty key in a merged dictionary hides a deeper registration: the item is found nowhere although it is registered under a non-empty key (the general fact is `EmptyOwnKeySkipsDictionary`) |
| `KeyOfStyle.NextAncestor` | Snoop/Converters/StyleKeyConverter.cs:86-93 | the next node of the walk is a node of the tree |
| `KeyOfStyle.Ancestors` | Snoop/Converters/StyleKeyConverter.cs:73-94 | the visited nodes start at the given node and form a complete walk: every node but the last yields no name and is followed by its next ancestor; the last yields a name or has no next ancestor |
| `KeyOfStyle.FirstHit` | Snoop/Converters/StyleKeyConverter.cs:74-85 | null exactly when no visited node yields a name; otherwise the name of a visited node, with every earlier node yielding null (non-FrameworkElements yield null) |
| `KeyOfStyle.GetKeyOfStyle` | Snoop/Converters/StyleKeyConverter.cs:61-105 | the loop returns exactly `KeyOf`: own resources, then the ancestors in walk order, then the application, else "" (never null) |
| `KeyOfStyle.NoStyleNoKey` | Snoop/Converters/StyleKeyConverter.cs:63-104 | an element without a Style gets the key "" |
| `KeyOfStyle.OwnResourcesFirst` | Snoop/Converters/StyleKeyConverter.cs:66-69 | a name found in the element's own resources is the key, whatever the ancestors and the application hold |
| `KeyOfStyle.NearestAncestorFirst` | Snoop/Converters/StyleKeyConverter.cs:71-94 | the nearest visited node that yields a name, even "", decides the key; farther nodes and the application are not consulted |
| `KeyOfStyle.ApplicationLast` | Snoop/Converters/StyleKeyConverter.cs:96-104 | the application's resources decide only when nothing nearer yields a name; with no application, or no name there, the key is "" |
| `KeyOfStyle.SealedStyleHasNoKey` | Snoop/Converters/StyleKeyConverter.cs:109-113 | an element whose Style is sealed gets the key "" |
| `KeyOfStyle.FirstStepIgnoresLogicalParent` | Snoop/Converters/StyleKeyConverter.cs:73-94 | for example, an element whose logical parent leads back to it still has a finite walk (its visual parent only), so its key is defined ("" there, as nothing is registered); its logical parent needs no rank |
| `KeyOfStyle.CycleBeyondFirstHitIsNotWalked` | Snoop/Converters/StyleKeyConverter.cs:76-85 | for example, a cycle among the ancestors past the first node that yields a name needs no rank: the walk stops at that node and the key is its name |
| `KeyOfStyle.WalkIsDistinct` | Snoop/Converters/StyleKeyConverter.cs:73-94 | a walk that ends never visits a node twice |
| `KeyOfStyle.EndingWalkIsRanked` | Snoop/Converters/StyleKeyConverter.cs:61-94 | every element whose walk ends admits a rank, so the rank requirement excludes only walks that run forever |
| `KeyOfStyle.KeyIsRegistered` | Snoop/Converters/StyleKeyConverter.cs:61-105 | a non-empty key comes from the element's own Style, which is then unsealed, and is the key of an entry holding that Style, in its resources, in a visited FrameworkElement's resources, or in the application's |
| `StyleKeyConverter.Convert` | Snoop/Converters/StyleKeyConverter.cs:26-49 | a pair exactly when the parameter is a FrameworkElement, the value is a Style and the key of the element's Style is non-empty; the pair holds the value and that key; otherwise the value comes back unchanged |
| `StyleKeyConverter.ConvertBack` | Snoop/Converters/StyleKeyConverter.cs:50-53 | every input comes back unchanged |

## Left out

- `StyleKeyCache.CacheStyle`, called by `Convert` before it returns a pair: a process-wide static cache in a file that is not part of this model.
- The WPF object model is given as data: `VisualTreeHelper.GetParent`, `FrameworkElement.Parent`, `Application.Current`, how `IsSealed` is computed, and deferred loading behind the `ResourceDictionary` indexer.
- The enumeration order of a `ResourceDictionary`'s keys is taken as the given entry order. Keys are their string form; `key.ToString()` on non-string keys is not modelled.
- `FindName.FindNameFromResource` takes a non-null item. A null item, which the code would match against null dictionary values, never occurs on the path from `GetKeyOfStyle`.
- `KeyOfStyle.GetKeyOfStyle` requires a rank that decreases along the nodes the walk visits, up to the first one that yields a name. A walk that revisits a node before that never ends in the code, and the model does not cover that case. `StyleKeyConverter.Convert` asks for the same only when it walks: the parameter is a FrameworkElement and the value a Style.
- A resource dictionary is a finite tree of merged dictionaries (the `Dict` datatype). A dictionary merged into itself, directly or through others, makes the recursion at line 127 run forever in the code. The model cannot express that case. A dictionary merged in two places is modelled as two equal copies.
- `KeyOfStyle.GetKeyOfStyle` does not model the exception `VisualTreeHelper.GetParent` throws when its argument is neither a Visual nor a Visual3D. The walk reaches line 92 with such a node when line 88 moves to a logical parent that is a content element, such as an `InlineUIContainer` around a Button. There the code throws out of `GetKeyOfStyle` and `Convert`. Every `OtherNode` here stands for a Visual, so the model returns a key or "" instead.
- `Convert`'s `parameter` is a node id or nothing. A non-null parameter that is not a DependencyObject is represented as nothing, since `as FrameworkElement` maps it to null as well.
- The unused `targetType` and `culture` parameters, and the data-binding pipeline around the converter.
