# agera-sdk core, modelled in Dafny

This project models the core of agera-sdk, a Rust application framework. Its
centre is the hierarchical entity store. An `Entity` is a handle that is
compared by identity. It points to a node, and a node holds:

- an optional name;
- a weak link to its parent;
- an ordered table of type-tagged components;
- an ordered list of child handles.

Around the store sit several smaller pieces, each modelled in its own file:

- the subtype protocol that the `entity_inherits!` and `entity_type!` macros
  generate;
- the `VectorExtensions` helpers;
- two versions of the event emitter;
- URI percent-encoding;
- browser `Instant` arithmetic;
- `ColorOffsets`;
- the application-ID validator;
- the JavaScript error-code classifiers;
- the `u64` entity identifier of the earlier ECS core.

| file | module | models |
|---|---|---|
| wrappers.dfy | Wrappers | `Option` and `Result` |
| vector_extensions.dfy | VectorExtensions | `index_of`, `index_of_from`, `remove_equals`, as loops proved against `FirstIndex`, `FirstIndexFrom` and `RemoveFirst` |
| strings.dfy | Strings | `str::split` on one character, and joining the pieces back |
| components.dfy | Components | the component table as a value: `get` (`Lookup`), `delete` (`Deleted`), `set` (`Stored`) |
| entity.dfy | Entity | class `Node` with every `Entity` method; the single-parent invariant `Forest(g)`; path resolution as a fold (`Resolve`) |
| subtypes.dfy | Subtypes, InheritsSyntax | upcasts, marker-checked downcasts, `is`/`to`, the generated constructor and field accessors, and the input shape of `entity_inherits!` |
| events.dfy | Events | `events::EventEmitter` and `EventListener` |
| util_events.dfy | UtilEvents | `util::EventEmitter` and `EventListener` |
| uri.dfy | Uri | `encode_uri`, `encode_uri_component`, `decode_uri`/`decode_uri_component`, `octet_to_hex`, and UTF-8 lossy decoding |
| instant.dfy | Timer | the browser `Instant` and its `Duration` arithmetic |
| color.dfy | Color | class `ColorOffsets` |
| app_id.dfy | ApplicationId | `ApplicationDescriptor::validate_id` |
| io_errors.dfy | IoErrors | `js_io_error_to_rs_io_error` and its delete-directory variant |
| ecs_id.dfy | EcsId | `Entity(u64)`, `PLACEHOLDER`, `from_int`, `to_int` |

## How the model follows the code

- **Nodes and identity.** A node is a Dafny class. Handle equality, cloning
  and hashing are reference equality on `Node`, as `Arc::ptr_eq` is in
  `PartialEq for Entity`.
- **Parent links.** The weak parent link is a nullable reference.
- **Component tags.** A component's Rust type is a `TypeTag`. A successful
  `Arc::downcast::<T>` is "the slot's tag is T's tag".
- **Sequential steps.** Every operation runs as one step. The per-field locks
  are not modelled.
- **The tree invariant.** Tree operations take a ghost set `g` of the nodes in
  use. They keep `Forest(g)`:
  - each node is listed by at most one node, and at most once;
  - its parent link points at that node;
  - a set parent link is matched by an entry in that parent's children.

  `Forest` does not claim acyclicity. The code lets a node become its own
  child or a child of a descendant, and the model does the same.
- **Panics.**
  - `add_child_at` and both swaps return an `Outcome`: `Completed`, or
    `Panicked` with the source's message. Effects made before the panic are
    kept.
  - The panics of `Instant` arithmetic, and the `unwrap` of a non-number
    JavaScript error value, are preconditions.
  - The `u32` conversion in `wait` returns `None` where the source panics.
- **Listener identity.** Listeners are compared by identity, as
  `Arc::ptr_eq` is.
- **`emit`.** Calling a listener's function is not modelled. `Emit` returns
  the calls it makes, in order, as pairs of a listener and its data.
- **`listener_seq`.** It is the emitter's `list` field.
- **Integers.**
  - `u128`, `u64`, `u32` and `i32` are subset types of `int`.
  - `i32` addition in `ColorOffsets` wraps around, as a release build does.
- **Bytes.** URIs are byte sequences. The encoders work on the UTF-8 bytes of
  the string, as `seq.bytes()` does. `decode_uri` hands each run of `%XX`
  groups to `String::from_utf8_lossy`. `Lossy` models that function, including
  its rule that each maximal invalid subpart becomes one U+FFFD.

### Where the code and its documentation differ

- **`$` in `encode_uri`.**
  - The doc comment (crates/purplelight_lang/src/uri.rs:11) lists `$` among
    the characters `encode_uri` keeps.
  - The character class in the code (line 14) omits `$`; it lists `&` twice
    instead.
  - The model follows the code: `$` is escaped to `%24`
    (`Uri.EncodeUriColonAndDollar`).
- **The index bound of `add_child_at`.** It checks `index < num_children()`
  after the child has been detached. So inserting at the end, or into a node
  without children, always panics. The model keeps that strict bound.

## Model

| member | source | states |
|---|---|---|
| VectorExtensions.FirstIndex | crates/agera_sdk_application_descriptor/src/util.rs:14-21 | the result is an index holding `x` with no `x` before it, and it is `None` exactly when `x` does not occur |
| VectorExtensions.IndexOf | crates/agera_sdk_application_descriptor/src/util.rs:14-21 | the scan returns the smallest index holding `x`, or `None` when `x` is absent; this is `FirstIndex` |
| VectorExtensions.FirstIndexFrom | crates/agera_sdk_application_descriptor/src/util.rs:23-33 | the result is an index at or after `start` that holds `x`, with no `x` between `start` and it; `None` means no `x` at or after `start` |
| VectorExtensions.IndexOfFrom | crates/agera_sdk_application_descriptor/src/util.rs:23-33 | `None` when `start` is past the end; otherwise the smallest index at or after `start` holding `x`, or `None` when there is none |
| VectorExtensions.FirstIndexFromSuffix | crates/agera_sdk_application_descriptor/src/util.rs:23-33 | searching from `k` is searching the suffix from `k` and shifting the index by `k` |
| VectorExtensions.IndexOfFromZero | crates/agera_sdk_application_descriptor/src/util.rs:14-33 | on a non-empty vector, `index_of_from(v, x, 0)` agrees with `index_of(v, x)` |
| VectorExtensions.RemoveEquals | crates/agera_sdk_application_descriptor/src/util.rs:35-43 | returns true exactly when `x` occurs; the result is the vector without its first `x`, one shorter; without an `x` it is unchanged |
| VectorExtensions.RemoveFirst | crates/agera_sdk_application_descriptor/src/util.rs:35-43 | one element shorter when `x` occurs; the vector itself when it does not |
| VectorExtensions.RemoveFirstCount | crates/agera_sdk_application_descriptor/src/util.rs:35-40 | removal takes out exactly one occurrence of `x` (multiset minus `{x}`), and every other element keeps its count |
| VectorExtensions.RemoveFirstUnique | crates/agera_sdk_application_descriptor/src/util.rs:35-40 | when `x` occurred at most once, no `x` remains after removal |
| Strings.SplitPiecesHaveNoSeparator | crates/agera/src/entity.rs:286 | no segment of `path.split('/')` contains `/` |
| Strings.Split | crates/agera/src/entity.rs:286 | at least one segment, and never more than one per character plus one |
| Strings.SplitCount | crates/agera/src/entity.rs:286 | n separators give n + 1 segments |
| Strings.Join | crates/agera/src/entity.rs:286 | the first segment starts the joined path, and every segment after it adds at least a separator |
| Strings.JoinSplit | crates/agera/src/entity.rs:286 | joining the segments with `/` gives back the path: splitting loses nothing |
| Strings.SplitWithoutSeparator | crates/agera/src/entity.rs:286 | a path without `/` is a single segment |
| Strings.SplitAtSeparator | crates/agera/src/entity.rs:286 | the segments of `a + "/" + b` are the segments of `a` followed by those of `b` |
| Components.CountTag | crates/agera/src/entity.rs:127-136 | the number of components of a type is at most the table size, and it is zero exactly when no slot has that type |
| Components.FirstSlot | crates/agera/src/entity.rs:127-136 | the first slot of a type holds that type and no earlier slot does; `None` exactly when no slot has the type |
| Components.Lookup | crates/agera/src/entity.rs:127-136 | `get` is `None` exactly when no component of the type is attached; otherwise it returns a value stored under that type |
| Components.DeletedSplice | crates/agera/src/entity.rs:150-166 | `delete` cuts out exactly the first slot of the type, or leaves the table as it is when there is none |
| Components.Deleted | crates/agera/src/entity.rs:150-166 | `delete` removes at most one slot and adds none |
| Components.DeletedSpec | crates/agera/src/entity.rs:150-166 | `delete` leaves the table unchanged without a T; otherwise it shrinks it by one and lowers the count of T by one; every other type keeps its count |
| Components.StoredSpec | crates/agera/src/entity.rs:139-145 | after `set`, the new value is the last slot; with at most one T before there is exactly one after; other types keep their counts |
| Components.Stored | crates/agera/src/entity.rs:139-145 | after `set`, the new component is the last slot, the table grew by at most one, and every earlier slot was there before |
| Components.StoredCount | crates/agera/src/entity.rs:139-145 | after `set`, T is present, and every other type keeps its count |
| Components.GetAfterSet | crates/agera/src/entity.rs:405-408 | `set(v)` then `get` returns `v`, provided at most one T was attached before |
| Components.GetAfterSetWithDuplicate | crates/agera/src/entity.rs:139-145 | with two T components attached, `set` replaces only the first and `get` still finds the older one, so the at-most-one condition is needed |
| Components.GetAfterDelete | crates/agera/src/entity.rs:410-411 | `delete` then `get` finds nothing, provided at most one T was attached |
| Components.OtherTypesUntouched | crates/agera/src/entity.rs:139-166 | `set` and `delete` of one type leave `get` of every other type unchanged |
| Components.LookupDeletedOther | crates/agera/src/entity.rs:150-166 | deleting one type does not change what `get` returns for another |
| Components.UniqueTagsPreserved | crates/agera/src/entity.rs:139-166 | a table with at most one component per type keeps that property through `set` and `delete` |
| Components.UniqueTagsDeleted | crates/agera/src/entity.rs:150-166 | on a table with at most one component per type, `delete` leaves no component of that type |
| Entity.Swapped | crates/agera/src/entity.rs:224 | `Vec::swap` exchanges exactly positions `i` and `j`, keeps all others, and permutes the list |
| Entity.Inserted | crates/agera/src/entity.rs:211 | `Vec::insert` puts the node at `i`, keeps the entries before `i`, and shifts the rest up by one |
| Entity.RemovedAt | crates/agera/src/entity.rs:242 | `Vec::remove` drops the entry at `k` and shifts the entries after it down by one |
| Entity.ForestIsLinked | crates/agera/src/entity.rs:324-329 | the single-parent invariant of the heap holds exactly when it holds of the snapshots of parent links and children lists |
| Entity.DetachLinked | crates/agera/src/entity.rs:238-248 | removing a child from its parent's list and clearing its parent link keeps the single-parent invariant |
| Entity.AttachLinked | crates/agera/src/entity.rs:192-212 | inserting a node that has no parent into a children list, linked back, keeps the single-parent invariant |
| Entity.SwapLinked | crates/agera/src/entity.rs:219-235 | exchanging two children keeps the single-parent invariant |
| Entity.ClearLinked | crates/agera/src/entity.rs:251-256 | clearing every child's parent link and emptying the list keeps the single-parent invariant |
| Entity.RemovedAtDistinct | crates/agera/src/entity.rs:242 | removing an entry from a list without repeats removes exactly that node, and leaves no repeats |
| Entity.InsertedDistinct | crates/agera/src/entity.rs:211 | inserting a node not yet listed leaves no repeats |
| Entity.FirstNamed | crates/agera/src/entity.rs:306 | `find` by name returns a child carrying that name with no earlier child carrying it; `None` means no child carries it |
| Entity.Step | crates/agera/src/entity.rs:292-308 | one path segment leads to a node in use, or to nothing |
| Entity.Resolve | crates/agera/src/entity.rs:285-311 | folding the segments from a node in use ends at a node in use, or at nothing |
| Entity.Node.constructor | crates/agera/src/entity.rs:103-112 | a new entity has no name, no parent, no components and no children |
| Entity.Node.Has | crates/agera/src/entity.rs:120-124 | true exactly when a component of the type is attached |
| Entity.Node.Get | crates/agera/src/entity.rs:127-136 | the scan returns the value of the first component of the type; it is `Some` exactly when one is attached |
| Entity.Node.Set | crates/agera/src/entity.rs:139-145 | the table becomes `delete` followed by appending the new component, and the same handle is returned |
| Entity.Node.Delete | crates/agera/src/entity.rs:150-166 | returns true exactly when a component of the type was attached; the table loses exactly its first such slot |
| Entity.Node.Parent | crates/agera/src/entity.rs:168-170 | `Some` exactly when the parent link is set, and then it is the node the link points to |
| Entity.Node.Children | crates/agera/src/entity.rs:172-178 | the copy equals the children list |
| Entity.Node.ChildAt | crates/agera/src/entity.rs:180-182 | `Some` exactly when the index is below the number of children, and then the child at that index |
| Entity.Node.NumChildren | crates/agera/src/entity.rs:185-187 | `child_at(i)` finds a child for exactly the indices `i` below the count |
| Entity.Node.Name | crates/agera/src/entity.rs:264-266 | the name last given to `set_name`, absent on a fresh entity |
| Entity.Node.SetName | crates/agera/src/entity.rs:269-271 | `name()` afterwards returns the given name |
| Entity.Node.RemoveChild | crates/agera/src/entity.rs:238-248 | returns true exactly when `c` is a child by identity; it then removes that occurrence and clears `c`'s parent; otherwise nothing changes; the invariant is kept |
| Entity.Node.Detach | crates/agera/src/entity.rs:241-244 | drops the child at `k` and clears its parent link, keeping the invariant |
| Entity.Node.RemoveFromParent | crates/agera/src/entity.rs:259-261 | returns true exactly when a parent was set; the parent no longer lists the node, the link is cleared, and a detached node gives false |
| Entity.Node.AddChild | crates/agera/src/entity.rs:192-197 | the child's parent becomes this node; the child is appended last and leaves its previous parent's list; adding `a` then `b` ends with `a, b`; the invariant is kept |
| Entity.Node.AddChildAt | crates/agera/src/entity.rs:206-212 | detaches first; completes exactly when the index is below the number of children after detaching, and then the child sits at that index; otherwise it panics with the detachment already done |
| Entity.Node.Attach | crates/agera/src/entity.rs:210-211 | links a detached node in at `index` and keeps the invariant |
| Entity.Node.SwapChildrenByIndices | crates/agera/src/entity.rs:232-235 | completes exactly when both indices are in range, and then exchanges exactly those positions; otherwise it panics and nothing changes |
| Entity.Node.SwapChildren | crates/agera/src/entity.rs:219-225 | completes exactly when both nodes are children, and then exchanges their positions; otherwise it panics and nothing changes |
| Entity.Node.Swap | crates/agera/src/entity.rs:224 | swaps two positions of the children list and keeps the invariant |
| Entity.Node.RemoveChildren | crates/agera/src/entity.rs:251-256 | every former child has its parent cleared, the list is empty, and the invariant is kept |
| Entity.Node.ClearParents | crates/agera/src/entity.rs:252-254 | the loop clears the parent link of every node in the snapshot |
| Entity.Node.ResolvePath | crates/agera/src/entity.rs:285-311 | the loop over the segments returns the fold `Resolve` of `path.split('/')` from this node |
| Entity.ForestWithNewNode | crates/agera/src/entity.rs:103-112 | a new entity joins the nodes in use without breaking the invariant |
| Entity.ResolveAbsent | crates/agera/src/entity.rs:289-291 | once the result is `None` it stays `None` |
| Entity.ResolveConcat | crates/agera/src/entity.rs:285-311 | resolution is a fold: resolving `a ++ b` resolves `a`, then `b` from there |
| Entity.ResolveJoinedPath | crates/agera/src/entity.rs:285-311 | resolving `p/q` resolves `q` from the result of resolving `p` |
| Entity.ResolveOnlySlashes | crates/agera/src/entity.rs:302-304 | the empty path, and any path made only of `/`, resolves to the starting node |
| Entity.ResolveOneSegment | crates/agera/src/entity.rs:285-311 | a path without `/` is resolved by exactly one step |
| Entity.ResolveFirstLast | crates/agera/src/entity.rs:293-298 | `.first` and `.last` resolve to the first and last child, or to nothing without children |
| Entity.ResolveChildThenParent | crates/agera/src/entity.rs:299-306 | stepping down to a named child and back up with `..` returns to the start |
| Entity.ResolveMissingName | crates/agera/src/entity.rs:305-307 | a name that no child carries resolves to nothing |
| Entity.SingleParent | crates/agera/src/entity.rs:192-197 | under the invariant, a node is listed by at most one node, and that node is its parent |
| Entity.ParentChildAgree | crates/agera/src/entity.rs:168-182 | under the invariant, `parent()` names a node whose children include this one, and every `child_at(i)` has this node as its `parent()` |
| Subtypes.MarkerNameInjective | crates/agera_sdk_proc/src/lib.rs:294 | distinct type names give distinct marker components |
| Subtypes.MarkerName | crates/agera_sdk_proc/src/lib.rs:294 | the marker's name is the type's name followed by `Component` |
| Subtypes.Upcast | crates/agera_sdk_proc/src/lib.rs:99 | an upcast, direct or indirect, always succeeds and wraps the same entity |
| Subtypes.TryFrom | crates/agera_sdk_proc/src/lib.rs:102-110 | a downcast succeeds exactly when the markers of the target level and of every level between it and the source are attached; it then wraps the same entity; otherwise it fails with "Type conversion failed" |
| Subtypes.Is | crates/agera/src/entity.rs:314-316 | `is::<Tj>()` holds exactly when the entity carries the markers of level `j` and of every level above it |
| Subtypes.NothingIsBare | crates/agera/src/entity.rs:455-456 | an entity without components is of no generated type |
| Subtypes.DowncastThenUpcast | crates/agera_sdk_proc/src/lib.rs:99-110 | a successful downcast followed by an upcast gives back the starting value |
| Subtypes.UpcastThenDowncast | crates/agera_sdk_proc/src/lib.rs:99-110 | the upcast of a value carrying its markers can always be undone by a downcast |
| Subtypes.WrapperEquality | crates/agera_sdk_proc/src/lib.rs:89-92 | two wrappers of one type are equal exactly when they wrap the same entity |
| Subtypes.BuiltCarries | crates/agera_sdk_proc/src/lib.rs:323 | a freshly constructed `Tj` carries the marker of every level from `j` up |
| Subtypes.BuiltCount | crates/agera_sdk_proc/src/lib.rs:323 | the marker of each level survives the `set`s made by the constructors below it |
| Subtypes.ConstructedIs | crates/agera/src/entity.rs:450-453 | a freshly constructed `Tj` passes `is` for its own type and every generated supertype |
| Subtypes.New | crates/agera_sdk_proc/src/lib.rs:320-327 | the generated `new` returns a fresh entity at level `j`, whose table is the supertype's with the marker of level `j` set |
| Subtypes.ConvertBack | crates/agera_sdk_proc/src/lib.rs:323 | the `try_into().unwrap()` inside the generated `new` succeeds and wraps the same entity |
| Subtypes.SetMarker | crates/agera_sdk_proc/src/lib.rs:323 | `.set(Marker::default())` turns the supertype's table into the table of level `j` |
| Subtypes.BuiltStep | crates/agera_sdk_proc/src/lib.rs:323 | the table of `Tj` is its supertype's table with the marker of level `j` set |
| Subtypes.Built | crates/agera_sdk_proc/src/lib.rs:320-327 | a constructed `Tj` holds no more components than there are levels from `j` up, and its own marker, with the field defaults, is the last one set |
| Subtypes.GetField | crates/agera_sdk_proc/src/lib.rs:370-374 | the getter panics on `unwrap` exactly when the marker is absent; otherwise it returns the field's value in the first marker |
| Subtypes.SetField | crates/agera_sdk_proc/src/lib.rs:375-379 | the setter panics exactly when the marker is absent; otherwise it writes the field into the first marker; it returns the same handle |
| Subtypes.WithField | crates/agera_sdk_proc/src/lib.rs:375-379 | the setter keeps the table's length and every slot's type |
| Subtypes.WithFieldAt | crates/agera_sdk_proc/src/lib.rs:375-379 | the setter rewrites only the marker slot, and only the written field in it, and keeps every tag |
| Subtypes.GetAfterSetField | crates/agera_sdk_proc/src/lib.rs:346-380 | the getter returns what the setter wrote, whenever the marker is attached |
| Subtypes.SetFieldKeepsOthers | crates/agera_sdk_proc/src/lib.rs:346-380 | the setter leaves every other field and every other component as they were |
| Subtypes.SetFieldKeepsTags | crates/agera_sdk_proc/src/lib.rs:375-379 | the setter changes no type's count, so every downcast that succeeded still succeeds |
| InheritsSyntax.Parse | crates/agera_sdk_proc/src/lib.rs:26-54 | an accepted input has at least two `<`-separated paths, and it is exactly the rendering of the parsed declaration: the paths, `, use` and the component path, then an optional `,` and crate path |
| InheritsSyntax.TypeTokensSnoc | crates/agera_sdk_proc/src/lib.rs:33-36 | each further `< path` appends one path to the type sequence |
| Events.Emitter.constructor | crates/agera/src/events/event_emitter.rs:17-21 | a new emitter has an empty listener list |
| Events.Emitter.NewListener | crates/agera/src/events/event_emitter.rs:29-35 | `listener(f)` returns a new listener on this emitter's list, appended last and active |
| Events.Emitter.Emit | crates/agera/src/events/event_emitter.rs:37-46 | every listener of the list is called once, in list order, with the data |
| Events.Listener.constructor | crates/agera/src/events/event_emitter.rs:90-97 | a new listener is bound to the given list |
| Events.Listener.Add | crates/agera/src/events/event_emitter.rs:101-105 | the list loses the listener's first occurrence and gets it pushed at the end |
| Events.Listener.Remove | crates/agera/src/events/event_emitter.rs:114-117 | the list loses exactly its first identity-equal occurrence of the listener |
| Events.AddedOnceLast | crates/agera/src/events/event_emitter.rs:101-105 | after `add`, a listener that occurred at most once occurs exactly once, and last |
| Events.Added | crates/agera/src/events/event_emitter.rs:101-105 | after `add` the listener is last, and the list grew by one exactly when the listener was not on it |
| Events.AddedKeepsOthers | crates/agera/src/events/event_emitter.rs:101-105 | `add` keeps the number of occurrences of every other listener |
| Events.AddedIdempotent | crates/agera/src/events/event_emitter.rs:101-105 | adding twice is adding once |
| Events.RemovedInactive | crates/agera/src/events/event_emitter.rs:107-117 | after `remove`, a listener that occurred at most once is not active |
| Events.AtMostOncePreserved | crates/agera/src/events/event_emitter.rs:101-117 | a list in which every listener occurs at most once keeps that property through `add` and `remove` |
| UtilEvents.Emitter.constructor | crates/agera/src/util/event_emitter.rs:17-21 | a new emitter has an empty listener list |
| UtilEvents.Emitter.AddListener | crates/agera/src/util/event_emitter.rs:29-33 | `add_listener` creates a listener on this emitter's list and appends it |
| UtilEvents.Emitter.Emit | crates/agera/src/util/event_emitter.rs:36-44 | the snapshot of the list is called once per listener, in order, with the data |
| UtilEvents.Listener.constructor | crates/agera/src/util/event_emitter.rs:71-76 | a new listener is bound to the given list |
| UtilEvents.Listener.Add | crates/agera/src/util/event_emitter.rs:80-84 | `remove` then push: the listener ends up last, with its earlier occurrence gone |
| UtilEvents.Listener.Remove | crates/agera/src/util/event_emitter.rs:87-96 | the index scan removes exactly the first pointer-equal entry and stops; the list is unchanged when there is none |
| Uri.HexValue | crates/purplelight_lang/src/uri.rs:26 | a hex digit of either case denotes a value below 16 |
| Uri.OctetToHex | crates/purplelight_lang/src/uri.rs:48-50 | two uppercase hex digits that denote the byte |
| Uri.IsUnreserved | crates/purplelight_lang/src/uri.rs:37 | the class `encode_uri_component` keeps holds only ASCII bytes other than `%` |
| Uri.Kept | crates/purplelight_lang/src/uri.rs:14 | both kept classes hold only ASCII bytes other than `%`, so a kept byte never starts an escape or a multi-byte character; neither keeps `$` |
| Uri.EncodeAppend | crates/purplelight_lang/src/uri.rs:13-17 | encoding works byte by byte: it distributes over concatenation |
| Uri.Encode | crates/purplelight_lang/src/uri.rs:13-17 | the encoding is at least as long as the input and at most three times as long |
| Uri.EncodeIsAscii | crates/purplelight_lang/src/uri.rs:13-17 | encoded text is pure ASCII |
| Uri.EncodeOneByte | crates/purplelight_lang/src/uri.rs:14-15 | a kept byte is copied, and any other byte becomes `%` followed by its two hex digits |
| Uri.EncodeComponentColon | crates/purplelight_lang/src/uri.rs:57 | `encode_uri_component(":")` is `%3A` |
| Uri.EncodeUriColonAndDollar | crates/purplelight_lang/src/uri.rs:11-14 | `encode_uri` keeps `:` but escapes `$` to `%24` |
| Uri.Groups | crates/purplelight_lang/src/uri.rs:22 | the run of `%XX` groups at the start fits in the input, and it is non-empty exactly when an escape starts there |
| Uri.DecodeRun | crates/purplelight_lang/src/uri.rs:23-27 | the loop over a run of `%XX` groups collects exactly the bytes the groups denote |
| Uri.Decode | crates/purplelight_lang/src/uri.rs:21-30 | decoding never lengthens the text |
| Uri.RunStep | crates/purplelight_lang/src/uri.rs:25-26 | a run of groups is its first group's byte followed by the run after it |
| Uri.DecodeWithoutPercent | crates/purplelight_lang/src/uri.rs:19-30 | text without `%` decodes to itself |
| Uri.DecodeCons | crates/purplelight_lang/src/uri.rs:19-30 | a byte other than `%` is copied through by decoding |
| Uri.DecodeInvalidPercent | crates/purplelight_lang/src/uri.rs:19-22 | a `%` not followed by two hex digits is no escape: it is copied through, and the text after it is decoded as usual |
| Uri.DecodeHexCase | crates/purplelight_lang/src/uri.rs:22-26 | escapes whose digits have the same values decode alike, whatever their case and whatever follows |
| Uri.DecodeLowercaseEscape | crates/purplelight_lang/src/uri.rs:22-26 | `%e9` decodes exactly as `%E9` |
| Uri.EscapedRun | crates/purplelight_lang/src/uri.rs:13-30 | encoding bytes that are not kept gives three bytes per byte, which decoding reads back as one run holding those bytes |
| Uri.DecodeEscapedRun | crates/purplelight_lang/src/uri.rs:13-30 | an encoded run of escaped bytes decodes to the lossy UTF-8 reading of those bytes |
| Uri.Prefix | crates/purplelight_lang/src/uri.rs:28 | the valid prefix of a character at the start is at most the length its lead byte announces, and empty when the lead byte cannot start a character |
| Uri.LossyValid | crates/purplelight_lang/src/uri.rs:28 | `from_utf8_lossy` leaves valid UTF-8 unchanged |
| Uri.LossyIsValid | crates/purplelight_lang/src/uri.rs:28 | `from_utf8_lossy` always yields valid UTF-8 |
| Uri.Lossy | crates/purplelight_lang/src/uri.rs:28 | the output is at least as long as the input and at most three times as long: each malformed piece of at most three bytes becomes the three bytes of U+FFFD |
| Uri.ValidSplit | crates/purplelight_lang/src/uri.rs:22-28 | valid UTF-8 cut before an ASCII byte gives two valid halves, so each run of escapes holds whole characters |
| Uri.EscapedPrefix | crates/purplelight_lang/src/uri.rs:14 | the bytes before the first kept byte are all escaped |
| Uri.DecodeEncode | crates/purplelight_lang/src/uri.rs:58 | decoding an encoded string gives it back, for `encode_uri` and `encode_uri_component` alike |
| Uri.DecodeEncodeStep | crates/purplelight_lang/src/uri.rs:13-30 | one kept byte, or one run of escaped bytes, decodes back to itself, and the rest is still valid UTF-8 |
| Uri.DecodeEncodeLastCodePoint | crates/purplelight_lang/src/uri.rs:58 | `decode_uri(encode_uri("\u{10FFFF}"))` gives back U+10FFFF |
| Timer.AsMillis | crates/agera/src/timer/target/browser.rs:75 | whole milliseconds of the duration, with the sub-millisecond rest dropped |
| Timer.FromMillis | crates/agera/src/timer/target/browser.rs:106 | `as_millis` reads back the milliseconds given |
| Timer.TryAdd | crates/agera/src/timer/target/browser.rs:74-76 | `None` exactly when the sum leaves the `u128` range; otherwise the sum |
| Timer.TrySubtract | crates/agera/src/timer/target/browser.rs:78-80 | `None` exactly when the duration exceeds the instant; otherwise the difference |
| Timer.Add | crates/agera/src/timer/target/browser.rs:83-88 | `+` agrees with `try_add` wherever it does not panic |
| Timer.Subtract | crates/agera/src/timer/target/browser.rs:96-101 | `-` agrees with `try_subtract` wherever it does not panic |
| Timer.Difference | crates/agera/src/timer/target/browser.rs:103-108 | zero when the left instant is earlier; otherwise the millisecond difference, capped at `u64::MAX` |
| Timer.Since | crates/agera/src/timer/target/browser.rs:63-65 | `since(other)` is `self - other` |
| Timer.WaitMillis | crates/agera/src/timer/target/browser.rs:48-51 | the millisecond count is handed on exactly when it fits a `u32`; beyond that `wait` panics |
| Timer.InstantVar.constructor | crates/agera/src/timer/target/browser.rs:57-60 | the variable holds the given instant |
| Timer.InstantVar.AddAssign | crates/agera/src/timer/target/browser.rs:90-94 | `+=` leaves the variable holding what `+` returns |
| Timer.InstantVar.SubAssign | crates/agera/src/timer/target/browser.rs:110-114 | `-=` leaves the variable holding what `-` returns |
| Timer.AddSubtractInverse | crates/agera/src/timer/target/browser.rs:74-80 | adding then subtracting a duration returns to the start, and so does the reverse |
| Timer.MillisecondsDecide | crates/agera/src/timer/target/browser.rs:75-79 | durations with equal whole milliseconds act identically on every instant |
| Timer.SubMillisecondIsNothing | crates/agera/src/timer/target/browser.rs:75-79 | a duration under one millisecond moves no instant |
| Timer.SinceThenAdd | crates/agera/src/timer/target/browser.rs:63-76 | adding the time since an earlier instant back to it gives the later instant, within the `u64` cap |
| Timer.WaitUntilPast | crates/agera/src/timer/target/browser.rs:53-55 | waiting until an instant already passed waits zero milliseconds |
| Timer.WaitUntilMillis | crates/agera/src/timer/target/browser.rs:53-55 | a target already reached waits 0 ms; a future one waits the difference when it fits a `u32`; a larger difference is the panic of `wait` |
| Color.WrapI32 | crates/agera/src/util/color.rs:161 | the `i32` congruent to `x` modulo 2^32, which is `x` itself when `x` fits |
| Color.AddI32 | crates/agera/src/util/color.rs:161-164 | `i32` addition: the sum when it fits, otherwise the sum wrapped modulo 2^32 |
| Color.ColorOffsets.constructor | crates/agera/src/util/color.rs:106-108 | the getters return the channels given |
| Color.ColorOffsets.Default | crates/agera/src/util/color.rs:151-155 | all four channels are zero |
| Color.ColorOffsets.SetRed | crates/agera/src/util/color.rs:116-118 | only the red channel changes |
| Color.ColorOffsets.SetGreen | crates/agera/src/util/color.rs:126-128 | only the green channel changes |
| Color.ColorOffsets.SetBlue | crates/agera/src/util/color.rs:136-138 | only the blue channel changes |
| Color.ColorOffsets.SetAlpha | crates/agera/src/util/color.rs:146-148 | only the alpha channel changes |
| Color.ColorOffsets.Add | crates/agera/src/util/color.rs:157-167 | a new value holding the channel-wise sums |
| Color.ColorOffsets.AddAssign | crates/agera/src/util/color.rs:169-176 | `x += y` leaves `x` equal to the old `x + y` |
| Color.WrapCongruent | crates/agera/src/util/color.rs:161-164 | integers congruent modulo 2^32 wrap to the same `i32` |
| Color.ZeroIsIdentity | crates/agera/src/util/color.rs:151-167 | the default is a two-sided identity of `+` |
| Color.SumCommutes | crates/agera/src/util/color.rs:157-167 | `+` is commutative |
| Color.AddI32Associates | crates/agera/src/util/color.rs:161-164 | `i32` addition is associative, wrap-around included |
| Color.SumAssociates | crates/agera/src/util/color.rs:157-167 | `+` is associative |
| Color.SumExact | crates/agera/src/util/color.rs:157-167 | within the `i32` range, `+` is the exact channel-wise sum |
| Color.SumWraps | crates/agera/src/util/color.rs:161 | the largest offset plus one wraps to the smallest |
| ApplicationId.ValidateId | crates/agera_sdk_application_descriptor/src/lib.rs:14-20 | `Ok` exactly when some substring of the ID matches `[a-z][a-z0-9_]*(\.[a-z][a-z0-9_]*)+` |
| ApplicationId.ScanFinds | crates/agera_sdk_application_descriptor/src/lib.rs:15 | the scan succeeds exactly when some `.` has a segment ending just before it and a lowercase letter just after it |
| ApplicationId.HasMatchIffDot | crates/agera_sdk_application_descriptor/src/lib.rs:15 | a match exists exactly when such a shortest match exists |
| ApplicationId.LowerRunStep | crates/agera_sdk_application_descriptor/src/lib.rs:15 | how the "inside a segment" state advances by one character |
| ApplicationId.MatchHasDot | crates/agera_sdk_application_descriptor/src/lib.rs:15 | every full match contains a shortest match |
| ApplicationId.DotGivesMatch | crates/agera_sdk_application_descriptor/src/lib.rs:15 | a shortest match is a full match of a substring |
| ApplicationId.SurroundedStillValid | crates/agera_sdk_application_descriptor/src/lib.rs:15 | characters around an accepted ID never cause a rejection |
| ApplicationId.NoDotRejected | crates/agera_sdk_application_descriptor/src/lib.rs:15-18 | an ID without `.` is rejected with `InvalidId` |
| ApplicationId.NoLowerAfterDotRejected | crates/agera_sdk_application_descriptor/src/lib.rs:15-18 | an ID in which no `.` is followed by a lowercase letter is rejected |
| ApplicationId.DottedIdAccepted | crates/agera_sdk_application_descriptor/src/lib.rs:15-16 | `com.example.app` is accepted |
| ApplicationId.SurroundingCharactersIgnored | crates/agera_sdk_application_descriptor/src/lib.rs:15-16 | `Xcom.app!` is accepted |
| ApplicationId.DigitAfterDotRejected | crates/agera_sdk_application_descriptor/src/lib.rs:15-18 | `com.1app` is rejected |
| IoErrors.ToIoError | crates/agera/src/file/target/browser.rs:115-134 | the kind is `Other` exactly for codes outside 0-3; among those, codes 4 and 5 carry the invalidated-state message; `DirectoryNotEmpty` never comes out |
| IoErrors.ToIoErrorForDeleteDirectory | crates/agera/src/file/target/browser.rs:136-143 | `DirectoryNotEmpty` exactly for code 6; any other code is classified as by the general classifier with `is_directory` set |
| IoErrors.CodeRecovered | crates/agera/src/file/directory_reference_target/browser.rs:5-33 | codes 0-3 and 6 can be read back from the error, codes 4 and 5 share one error, and any other number is "Unknown error" |
| IoErrors.CodeOneDependsOnExpectation | crates/agera/src/file/directory_reference_target/browser.rs:9-14 | code 1 is "not a directory" when a directory was expected, including in the delete-directory variant, and "is a directory" otherwise |
| IoErrors.OnlyCodeOneDependsOnExpectation | crates/agera/src/file/directory_reference_target/browser.rs:5-24 | the `is_directory` flag matters only for code 1 |
| IoErrors.NonCodesAreUnknown | crates/agera/src/file/directory_reference_target/browser.rs:21-23 | NaN, the infinities and fractional codes are unknown errors in both classifiers |
| EcsId.FromInt | crates/_recover/purplelight_core/src/_backup/ecs/entity.rs:9-11 | `to_int` reads back the integer given |
| EcsId.ToInt | crates/_recover/purplelight_core/src/_backup/ecs/entity.rs:13-15 | `from_int` rebuilds the entity from the integer |
| EcsId.RoundTrips | crates/_recover/purplelight_core/src/_backup/ecs/entity.rs:7-15 | `from_int` and `to_int` are inverse to each other, and the placeholder is 0 |
| EcsId.OrderOfIntegers | crates/_recover/purplelight_core/src/_backup/ecs/entity.rs:2-3 | equality and order of entities are those of their integers, and the order is total |
| EcsId.Less | crates/_recover/purplelight_core/src/_backup/ecs/entity.rs:2 | the derived order is strict: an entity below another differs from it, and an entity neither below nor equal to another has the larger integer |

## Left out

- Locks: the per-field `RwLock`s of a node and of the listener lists are not modelled. Every operation is one sequential step, so the windows between a lock section in `delete`, `emit` or `remove` and the next one do not exist in the model.
- Lifetimes: `Arc`/`Weak` reference counting is not modelled, and neither is `WeakEntityRef` (`empty`, `upgrade`, `downgrade_ref`, its identity equality). Dafny does not deallocate: a parent link is a nullable reference that never fails to upgrade. `ByAddress` hashing is not modelled either.
- Acyclicity: the tree operations do not check for cycles, and the model does not add a check. `Forest(g)` is the single-parent invariant only.
- Component values: a component is a type tag plus a `Value`. Rust's open world of component types and the `Arc<T>` that `get` returns are not modelled.
- Subtypes.TryFrom: an indirect downcast is modelled as requiring the markers of every level in between. The generated code checks its own marker and then converts through the intermediate types, and each of those conversions checks that type's marker. The model follows that recursion; how deep the chain goes is a parameter.
- Subtypes.New: the user-written statements after `super(...)` in a generated constructor are not part of this model, and neither are the constructor's own arguments.
- Subtypes.GetField: it requires that the marker, when attached, holds the field. The generated component struct always has a member per declared field, and a field map that lacks one is not a state the generated code can reach.
- Field storage: `ref` fields (an `Arc` in a lock) and plain fields are both modelled as a value in the marker's field map.
- Macro parsing: the token-level parsing and code generation of `entity_type!` are not modelled. So are `syn`'s path grammar, attributes, visibility and generics.
- InheritsSyntax.Parse: a path is one token. The contract proves soundness only: an accepted input is the rendering of its result. Completeness is not stated.
- Listener functions: they are never called. `Emit` returns the calls it would make. Panics inside listeners and re-entrant changes to the list during `emit` are not modelled.
- Events.Listener.IsActive: this is a predicate with no contract of its own. `NewListener` and `RemovedInactive` state what it means.
- Timer.Add: the `expect` panic on a sum past `u128::MAX` is a precondition. `TryAdd` models the failing case.
- Timer.Subtract: the `expect` panic on a duration longer than the time since the epoch is a precondition. `TrySubtract` models the failing case.
- Timer.InstantVar.AddAssign: it inherits the precondition of `Add` instead of panicking.
- Timer.InstantVar.SubAssign: it inherits the precondition of `Subtract` instead of panicking.
- Timer.WaitMillis: it returns `None` where the conversion to `u32` panics.
- Timer.WaitUntilMillis: it returns `None` where `wait` panics.
- Timers: the JavaScript timers, `Instant::now`, `JSTicker` and `Ticker::tick` are not modelled. Their bound on the period in milliseconds is the same check that `WaitMillis` models. The current instant is a parameter, as in `WaitUntilMillis`.
- Color: only the release-build behaviour of `ColorOffsets` arithmetic is modelled, which wraps around on `i32` overflow. A debug build panics on the same inputs.
- Color.ColorOffsets.Alpha: the `alpha` getter takes `self` by value and consumes it. In the model it is a plain reader.
- IoErrors.ToIoError: a JavaScript value that is not a number makes `as_f64().unwrap()` panic, so it is a precondition. NaN and the infinities are collapsed into one `NonFinite` value, because each compares unequal to every code.
- decode_uri_component: it is `decode_uri`, so `Uri.Decode` models both.
- Uri.DecodeEncode: the round trip is proved for valid UTF-8 input, which every Rust `&str` is.
- Uri: the `u8::from_str_radix(...).unwrap_or(0)` fallback cannot be reached, because the regex admits only hex digits. The model reads the digits directly.
- Geometry, text, display, file I/O, bootstrap and platform glue, and the `bevy_ecs` wrappers are outside the modelled core.
