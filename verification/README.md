# Ghidra's object property set, modelled in Dafny

Ghidra's `ObjectPropertySet` stores arbitrary objects at 64-bit indices, which are usually addresses. The index space is split into pages. A page is created the first time something is written to it. The set keeps a running entry count, `numProperties`. It never recounts: each write adds the change in the page's size that it observes. The set can also move an entry from one index to another, write one value to a save stream or read one back, and hand the value at an index to a visitor.

This project models that class as pure functions over an immutable store and proves the laws the class relies on.

- `optional.dfy` (`Optional`): `Option` stands for a nullable reference (`None` is Java `null`). `Result` carries the restore failure.
- `partition.dfy` (`Partition`): `Index` is a Java `long`. Pages hold 2^bits slots. The page identifier is the index shifted right arithmetically by `bits`, and the offset is the index masked with 2^bits - 1. Both are written one bit at a time. The proofs use only the lemmas that splitting and joining are inverse, so (page, offset) determines the index.
- `property_page.dfy` (`PropertyPage`): a page is a `map<nat, V>` from offset to value, and its size is the number of keys. This is the behaviour the class expects from a page's `addObject`, `getObject` and `getSize`. `Occupancy` is the 0/1 weight a slot adds to a page size.
- `property_set.dfy` (`PropertySet`): the state kept by the base class. It holds the name, the page size, the page directory and `numProperties`. `Valid` says the count equals the sum of the page sizes. `SlotsCount` proves that this sum is the number of occupied slots.
- `object_property_set.dfy` (`ObjectPropertySet`): the class's operations, each with a contract: `Create`, `DataSize`, `Put` (`putObject`), `Get` (`getObject`), `MoveIndex`, `SaveProperty`, `RestoreProperty` and `ApplyValue`. `Remove` is the base-class removal that `moveIndex` calls, modelled by the contract the class relies on.
- `store_properties.dfy` (`StoreProperties`): `View` gives the abstract content of a store, a finite map from index to value. The lemmas show how each operation changes that map. They also show that every mutation keeps `Valid`, and that a valid count equals the number of stored entries.
- `persistence.dfy` (`Persistence`): runs the save and restore hooks over a list of indices. Restoring with the same list reproduces every saved value.
- `scenario.dfy` (`Scenario`): a worked example on an empty store: two writes to one index, then a move.

`Get` returns only a value, never a new store. So a read cannot create a page or change the count.

## Model

| member | source | states |
|---|---|---|
| ObjectPropertySet.Create | Ghidra/Framework/Generic/src/main/java/ghidra/util/prop/ObjectPropertySet.java:31-33 | A new set keeps its name, holds nothing at any index, has count 0, and satisfies the count invariant |
| ObjectPropertySet.DataSize | Ghidra/Framework/Generic/src/main/java/ghidra/util/prop/ObjectPropertySet.java:38-41 | The reported per-entry size is the fixed estimate 20, whatever the store holds |
| ObjectPropertySet.Put | Ghidra/Framework/Generic/src/main/java/ghidra/util/prop/ObjectPropertySet.java:43-54 | After a put at i, reading i gives the new value, which replaces any old one. Every other index reads as before. The count grows by one when a value goes into an empty slot and is unchanged on an overwrite |
| ObjectPropertySet.Get | Ghidra/Framework/Generic/src/main/java/ghidra/util/prop/ObjectPropertySet.java:56-68 | Reading gives null when no page exists for the index, and also when its page exists but the offset is unoccupied. When the offset is occupied, it returns the object stored there |
| ObjectPropertySet.Remove | Ghidra/Framework/Generic/src/main/java/ghidra/util/prop/ObjectPropertySet.java:75 | The removal used by a move: the index then reads null, all other indices are unchanged, and the count drops by one exactly when a value was there |
| ObjectPropertySet.MoveIndex | Ghidra/Framework/Generic/src/main/java/ghidra/util/prop/ObjectPropertySet.java:72-77 | After a move, the destination holds what the source held, the source reads null when it differs from the destination, other indices are unchanged, and the count drops only when a distinct destination was occupied |
| StoreProperties.MoveRelocates | Ghidra/Framework/Generic/src/main/java/ghidra/util/prop/ObjectPropertySet.java:72-77 | Moving an occupied index to a distinct empty one leaves the source empty and the destination holding the value. The count is unchanged, and the content is the old content with that one entry relocated |
| StoreProperties.MoveToSelf | Ghidra/Framework/Generic/src/main/java/ghidra/util/prop/ObjectPropertySet.java:72-77 | Moving an index onto itself changes neither the content nor the count |
| StoreProperties.MoveKeepsValid | Ghidra/Framework/Generic/src/main/java/ghidra/util/prop/ObjectPropertySet.java:72-77 | A move keeps the count equal to the sum of the page sizes |
| StoreProperties.PutView | Ghidra/Framework/Generic/src/main/java/ghidra/util/prop/ObjectPropertySet.java:49-54 | On the content, a put is a map update, and a null put is a deletion |
| StoreProperties.RemoveView | Ghidra/Framework/Generic/src/main/java/ghidra/util/prop/ObjectPropertySet.java:75 | On the content, the removal deletes exactly the one index |
| StoreProperties.PutKeepsValid | Ghidra/Framework/Generic/src/main/java/ghidra/util/prop/ObjectPropertySet.java:49-54 | Adding the page-size delta keeps the count equal to the sum of the page sizes, and keeps every slot on its page |
| StoreProperties.RestoreKeepsValid | Ghidra/Framework/Generic/src/main/java/ghidra/util/prop/ObjectPropertySet.java:89-93 | A successful restore keeps the count equal to the sum of the page sizes |
| StoreProperties.RemoveKeepsValid | Ghidra/Framework/Generic/src/main/java/ghidra/util/prop/ObjectPropertySet.java:75 | The removal keeps the count equal to the sum of the page sizes |
| StoreProperties.CountIsOccupancy | Ghidra/Framework/Generic/src/main/java/ghidra/util/prop/ObjectPropertySet.java:53 | In a valid store, the count equals the sum of the page sizes, which equals the number of stored entries |
| PropertySet.SumSizesUpdate | Ghidra/Framework/Generic/src/main/java/ghidra/util/prop/ObjectPropertySet.java:50-53 | Replacing one page changes the sum of the page sizes by exactly that page's size delta, which is the delta the put adds to the count |
| PropertySet.SlotsCount | Ghidra/Framework/Generic/src/main/java/ghidra/util/prop/ObjectPropertySet.java:53 | The sum of the page sizes is the number of distinct occupied indices |
| Partition.SplitInjective | Ghidra/Framework/Generic/src/main/java/ghidra/util/prop/ObjectPropertySet.java:50-52 | Two indices with the same page and the same offset are the same index. This is why a put at one index cannot disturb another |
| StoreProperties.LastPutWins | Ghidra/Framework/Generic/src/main/java/ghidra/util/prop/ObjectPropertySet.java:43-54 | Two puts at one index leave exactly the state of the second put alone. So the count is incremented at most once |
| ObjectPropertySet.SaveProperty | Ghidra/Framework/Generic/src/main/java/ghidra/util/prop/ObjectPropertySet.java:82-84 | Saving appends exactly one element to the stream: the value at the index, or null |
| ObjectPropertySet.RestoreProperty | Ghidra/Framework/Generic/src/main/java/ghidra/util/prop/ObjectPropertySet.java:89-93 | A restore fails exactly when the stream is exhausted. Otherwise it stores the stream's first value at the index, leaves other indices alone and consumes that one value. The count moves as for a put of that value |
| StoreProperties.SaveRestoreRoundTrip | Ghidra/Framework/Generic/src/main/java/ghidra/util/prop/ObjectPropertySet.java:82-93 | Saving at an index and restoring at that index into any store gives back the saved value and consumes the whole stream |
| Persistence.SaveAllAppends | Ghidra/Framework/Generic/src/main/java/ghidra/util/prop/ObjectPropertySet.java:82-84 | A save pass over a list of indices appends their values in order and nothing else |
| Persistence.RestoreAllReproduces | Ghidra/Framework/Generic/src/main/java/ghidra/util/prop/ObjectPropertySet.java:89-93 | A restore pass over a list of indices puts each saved value back and leaves all other indices of the target as they were. It consumes exactly one value per index |
| Persistence.SaveRestoreAllRoundTrip | Ghidra/Framework/Generic/src/main/java/ghidra/util/prop/ObjectPropertySet.java:78-93 | Restoring with the same list of indices used for saving reproduces the value at every listed index, including when indices repeat |
| ObjectPropertySet.ApplyValue | Ghidra/Framework/Generic/src/main/java/ghidra/util/prop/ObjectPropertySet.java:100-105 | The visitor is called once, with the stored value, when the index holds one, and not at all otherwise |
| Scenario.PutOverwriteMove | Ghidra/Framework/Generic/src/main/java/ghidra/util/prop/ObjectPropertySet.java:49-77 | Start from an empty store, put "a" at 100, put "b" at 100, then move 100 to 500. The count goes 0, 1, 1, 1. Index 100 ends empty and 500 holds "b" |

## Left out

- Java object serialization is not modelled: no wire format, no `serialVersionUID`, and no `ObjectOutputStream` or `ObjectInputStream`. A stream is the sequence of values written, with `None` for null.
- ObjectPropertySet.RestoreProperty: models only the failure of an exhausted stream. Corrupt data, unknown classes and other I/O failures come from the Java serialization library, which is foreign code.
- ObjectPropertySet.SaveProperty: cannot fail in the model. The failure on an unserializable value belongs to the Java serialization library, and values are opaque here.
- The base class `PropertySet` is not part of this model. Its page size, its `getPageID`/`getPageOffset` arithmetic, its page directory and its `remove` are stood in for by a page size of 2^pageBits, an arithmetic shift and a mask, a map of pages, and `Remove`. The proofs rely only on splitting and joining being inverse.
- ObjectPropertySet.Remove: keeps a page once it is empty. Whether the base class drops empty pages is not visible here. Empty pages add nothing to the count, so the invariant does not depend on it.
- `PropertyPage` is not part of this model. A page is a map from offset to value. Writing null is taken to clear the slot, so null counts as absence. If the real page kept an occupied slot holding null, every read would still give null, and only `numProperties` would differ. That is the case a move from an empty index reaches. `MoveRelocates` therefore assumes an occupied source.
- `numProperties` is an unbounded integer. A Java `int` would wrap after 2^31 - 1 entries, which is far beyond any page store that fits in memory.
- The base class's iteration driver is not modelled. That driver decides which indices are saved and restored. `SaveAll` and `RestoreAll` only run the hooks over a given list of indices.
- The visitor's dispatch and the effects of `visit` are not modelled. The visitor is represented by the list of values it was called with.
- Thread safety is not modelled: the class has none.
