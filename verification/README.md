# Dubbogo: a verified model

Dubbogo is a Go implementation of the Dubbo remoting stack. This project models its three stateful
cores in Dafny and proves what they are for.

1. **The Hessian 2.0 codec and the Dubbo request frame** (`codec/hessian`). Every wire form is a pure
   function (`HessianInt`, `Unicode`, `HessianString`, `HessianBinary`, `HessianValue`,
   `HessianDecode`). The decoder specification is total: it says what comes back, which error or
   panic, and which bytes stay unread, for every byte sequence. The classes `HessianEncoder.Encoder`
   and `HessianDecoder.Decoder`, whose methods update a buffer, a cursor and a class table as the Go
   methods do, are proved equal to these functions. `HessianWire` pins the wire forms by the letter of
   the protocol; `HessianPeer` and `HessianNames` prove what is read from a peer whose structs list other
   fields or another order; `HessianRoundTrip` and `HessianFidelity` prove
   that the two undo each other, `HessianInStep` and `HessianDomain` on exactly which values they do,
   `HessianOrder` in which orders of a map; `HessianSession` puts both objects together; `PojoRegistry`
   is the global class registry; `DubboRequest` is the frame with its in-place header patch.
2. **The provider cache fed by the registry watcher** (`selector`, `registry`). `ServiceCache` has the
   slices, arrays and aliases of the Go code and is proved to be a last-writer-wins map; `ZkWatch`
   diffs child lists into events and converges; `ZkConsumer` seeds the cache; `RoundRobin` selects.
3. **Two ownership protocols**: `JsonRpcServer` (request and response correlation over reused memory)
   and `RpcPool` (the connection pool), each as a class whose methods are the atomic steps and whose
   invariant every step keeps, hence every interleaving.

Reflection is replaced by a schema: an ordered list of typed fields for each Java class name. Clocks,
registry answers, parsed JSON, map iteration orders and outcomes of I/O are parameters.

## Where the code and its documentation or protocol differ

The model follows the code; each difference has a statement of exactly when it shows.

- Compact integer tags are subtracted as bytes, so compact negative numbers come back shifted
  (`codec/hessian/decode.go:242`; sections 4.5 and 4.7 of the Hessian 2.0 Serialization Protocol have a
  signed offset): `Int32Exact`, `Int64Exact`.
- An empty map is written as no bytes at all, so its place is taken by what follows: `EmptyMapVanishes`,
  `EmptyMapField`, `LastFieldEmptyMap`. A struct's slice field panics on null: `SliceFieldExact`,
  `NilInSlice`. Empty binary data is written as null: `RoundTripExact`. Together with the shifted
  integers, and apart from empty maps in struct fields, they are exactly what keeps a value from coming
  back: `RoundTripDomain`.
- An int64 field that meets a four-byte int32 reads a second tag inside it
  (`codec/hessian/decode.go:330-332`), while it reads every other int32 as an int32 field does:
  `Int32AsInt64Exact`; `StructsLoseStep` is an input after which an empty map is read that nobody wrote.
- The direct object form is chosen by the low byte of the class index, which is right for 256 classes:
  `HeaderExact`.
- The readers of map values and of map fields treat null values differently: `ReadersAgreeExact`, for keys
  that do not collide on the wire, and `ReadersAgreeOnCollision` for some that do.
- The comment on `RegisterPOJO` promises -1 for a type registered before. The test looks the Java name
  up among Go names: `RegisterAgainExact`, `RegisterAgainExample`. A type whose Java name is another's
  Go name is refused, and its objects go out without a definition: `EncStructDefinition`,
  `EncStructExample`.
- The request id is OR-ed into the bits where the Dubbo header has the serialization id
  (`codec/hessian/request.go:189`): `FlagByteIsOr`, and `SerializationIdExact` for when it survives. The
  parameter map never has a version (`codec/hessian/request.go:222`): `NoVersion`.
- A cache entry is stamped with its time of expiry but compared as if with its time of writing, so it
  counts as new for twice the configured time (`selector/cache/cache.go:106`, `selector/cache/cache.go:128`):
  `RefreshThenGet`, `UpdateThenGet`.
- The slice handed out when the registry fails is the cached one, not a copy: `SharedThenDelete` says
  what its holder sees of a later delete.
- Group and version are not part of the cache's key (`registry/config.go:45-47`), so a fresh hit may hand
  out another configuration's URLs: `OtherGroupServed`.
- Deletes are dropped while the connection to the registry is down, so that a node may stay cached:
  `SelectorConverges`, `SelectorRun`.
- `GetServices` of the consumer means to keep one URL for each location, but looks up the query
  parameter named like the location (`registry/zk/consumer.go:365`), so the last URL wins unless a query
  parameter happens to hold a selected location: `SelectExact`, `SeedExact`. A missing parameter counts
  as the location of a URL without a host: `HostlessShadows`.
- A vanished node that does not parse is a nil dereference (`registry/zk/watch.go:155-156`):
  `DelEventsExact`.
- A JSON-RPC request refused for its HTTP method leaves its ID in the workspace: `AfterRefusal`; a
  request without params that follows one with params is given an empty text to parse: `ReadBody`.
- A connection closed while it is being released is pooled closed: `CloseWhileReleasing`.

## Model

| member | source | states |
|---|---|---|
| `HessianInt.Int32Exact` | codec/hessian/encode.go:178-188 | for every int32, decoding consumes exactly its encoding, and gives the number back if and only if it is not in the compact negative ranges; a decoder with signed tags gives every int32 back |
| `HessianInt.Int64Exact` | codec/hessian/encode.go:201-213 | the same for every int64 |
| `HessianInt.RoundTrip32By` | codec/hessian/decode.go:226-265 | the value that comes back, with the shift by 256, 65536 or 2^24 of each compact form |
| `HessianInt.RoundTrip64By` | codec/hessian/decode.go:278-377 | the same for the 64-bit reader |
| `HessianInt.Int32AsInt64Exact` | codec/hessian/decode.go:302-332 | the int64 reader reads an int32 as the int32 reader does, with what follows unread, if and only if the four-byte form is not used |
| `Unicode.RunesOfUtf8` | codec/hessian/decode.go:537-561 | UTF-8 decoding inverts encoding rune by rune (section 3 of RFC 3629) |
| `Unicode.BrokenByte` | codec/hessian/encode.go:282-289 | a byte that begins no character is read alone, as U+FFFD |
| `Unicode.ValidUtf8` | codec/hessian/encode.go:277-319 | a Go string survives the replacement of broken sequences exactly when it is valid UTF-8 |
| `HessianString.StringRoundTrip` | codec/hessian/decode.go:564-677 | a string of any length, cut into chunks counted in runes and stored in bytes, comes back whole with what followed it unread |
| `HessianString.StringOverhead` | codec/hessian/encode.go:277-319 | chunking adds at least one byte and at most three for each started chunk of 4096 runes |
| `HessianString.GoStringRoundTrip` | codec/hessian/encode.go:277-319 | a Go string comes back byte for byte if and only if it is valid UTF-8 |
| `HessianString.CopyRunes` | codec/hessian/encode.go:282-289 | the closure copies exactly the next runes and leaves the others |
| `HessianString.EncodeString` | codec/hessian/encode.go:277-319 | the loop over the shrinking reader appends the chunked encoding of the string's runes |
| `HessianBinary.BinaryRoundTrip` | codec/hessian/decode.go:719-762 | binary data of any length comes back; empty data alone goes out as null |
| `HessianBinary.BinarySize` | codec/hessian/encode.go:330-363 | the exact size of an encoding: data, three bytes for each full chunk before the last, one to three for the last header |
| `HessianBinary.EncodeBinary` | codec/hessian/encode.go:330-363 | the loop that slices chunks off its input appends the chunked encoding |
| `HessianLeaves.FirstByte` | codec/hessian/decode.go:988-1007 | no encoding is empty or starts with the map terminator, which is what lets maps end |
| `HessianLeaves.ClassDefRoundTrip` | codec/hessian/decode.go:1083-1110 | a class definition is read back with its name and all field names |
| `HessianLeaves.HeaderExact` | codec/hessian/encode.go:595-601 | an object header names its own class if and only if the index is below 256 or its low byte is above 15 |
| `HessianLeaves.FindFieldExact` | codec/hessian/decode.go:1112-1126 | every wire name finds its own field if and only if no earlier field answers to it |
| `HessianPeer.ElemsInvert` | codec/hessian/decode.go:834-858 | the elements of a list come back in order, with class definitions anywhere among them |
| `HessianPeer.EntriesInvert` | codec/hessian/decode.go:988-1007 | the entries of an untyped map are put into it one after the other until the terminator |
| `HessianPeer.FieldsInvert` | codec/hessian/decode.go:1128-1256 | the fields of an instance are read in the peer's order, with definitions of nested classes in between, and each is set under its own name |
| `HessianPeer.PeerRoundTrip` | codec/hessian/decode.go:147-215 | what a peer writes whose structs list the decoder's fields in any order, or only some of them, at every depth: it comes back with its fields by wire name, the continuation unread, the class tables equal |
| `HessianPeer.PeerObject` | codec/hessian/decode.go:1112-1147 | one such object field by field: the image of what was written under the same wire name, or the zero value |
| `HessianPeer.OtherOrder` | codec/hessian/decode.go:1140-1147 | two string fields listed the other way round each get their own string |
| `HessianNames.InstanceByName` | codec/hessian/decode.go:1112-1147 | a class defined with any distinct names: each field gets what was read under its wire name, the others keep their zero values, and for a name of no field nothing is read |
| `HessianNames.ZeroValues` | codec/hessian/decode.go:1138 | the zero value of each kind of field |
| `HessianWire.Int32Wire` | codec/hessian/encode.go:178-188 | section 4.5: length, tag range and the number denoted, for every int32 |
| `HessianWire.Int64Wire` | codec/hessian/encode.go:201-213 | section 4.7: the same for every int64 |
| `HessianWire.Utf8Wire` | codec/hessian/encode.go:282-289 | section 3 of RFC 3629: lead and continuation bytes of every character and the number they denote |
| `HessianWire.StringWire` | codec/hessian/encode.go:277-319 | section 4.12: the header of each length, and the first chunk of a longer string |
| `HessianWire.BinaryWire` | codec/hessian/encode.go:330-363 | section 4.1: the same for binary data |
| `HessianWire.ValueWire` | codec/hessian/encode.go:57-135 | sections 4.2, 4.6, 4.8 and 4.9: the bytes of null, booleans, lists and maps around their parts |
| `HessianWire.ObjWire` | codec/hessian/encode.go:564-610 | section 4.10: an object with or without its definition, depending on whether its class is in the table |
| `HessianWire.ObjectWire` | codec/hessian/encode.go:595-601 | the direct form for the first sixteen classes, else the tag and the index |
| `HessianWire.PartsWire` | codec/hessian/encode.go:376-418 | elements, entries and names follow one another, an entry's key before its value |
| `HessianWire.ShortList` | codec/hessian/decode.go:831-857 | a short list of up to seven encodings is read as their images |
| `HessianWire.VariableList` | codec/hessian/decode.go:831-857 | so is a variable-length list, with one more byte dropped at its end |
| `HessianWire.NullInFields` | codec/hessian/decode.go:580-581 | what null gives in a field of each kind |
| `HessianWire.Int64InFields` | codec/hessian/decode.go:589-598 | a long in a string field is printed as it is read, and an int32 field refuses it |
| `HessianWire.TaggedInts` | codec/hessian/decode.go:330-336 | after three of its tags the int64 reader reads a whole int |
| `HessianWire.TypedMapField` | codec/hessian/decode.go:876-883 | a typed map in a map field is read as an untyped one, its type's name passed over |
| `HessianWire.FailedField` | codec/hessian/decode.go:1215-1219 | a failing field ends the instance with its error, a failing slice with nil and none |
| `HessianWire.IllegalTags` | codec/hessian/decode.go:147-215 | the four tags that begin no value are errors |
| `HessianWire.NoSuchClass` | codec/hessian/decode.go:1262-1280 | so is an object of a class that is not defined or not registered |
| `HessianRoundTrip.MapFieldReads` | codec/hessian/decode.go:871-905 | the reader of map fields reads a typed map back, without the entries whose values go out as null |
| `HessianRoundTrip.RoundTrip` | codec/hessian/decode.go:147-215 | for every encodable value, starting table and continuation: the value's image comes back, the continuation is unread, both class tables are equal |
| `HessianFidelity.ImageFixed` | codec/hessian/encode.go:57-135 | the image of a value is the value itself if and only if it has no compact negative integer and no empty binary data at any depth |
| `HessianFidelity.RoundTripExact` | codec/hessian/decode.go:147-215 | decoding always succeeds and consumes the encoding, and the round trip is the identity on exactly the faithful values |
| `HessianFidelity.EmptyMapVanishes` | codec/hessian/encode.go:399-402 | an empty map is written as nothing; a list of one takes its element from whatever follows, and cannot be read when nothing does |
| `HessianInStep.EncInStep` | codec/hessian/encode.go:57-135 | the encoding of a value whose structs are encodable, empty maps included, is a run of whole tokens and structs in which no map tag is followed by the terminator |
| `HessianInStep.StaysInStep` | codec/hessian/decode.go:147-215 | what is read from such bytes holds no empty map and ends between tokens, under the class table that belongs there |
| `HessianDomain.EncQuiet` | codec/hessian/decode.go:147-215 | no encoding reads as an empty map, under any class table, except that of an empty map, which is nothing |
| `HessianDomain.ElemsMiss` | codec/hessian/decode.go:834-858 | a list with an element outside the domain does not come back: the first such element is misread, and stays so |
| `HessianDomain.FieldsMiss` | codec/hessian/decode.go:1128-1256 | nor does a struct with such a field |
| `HessianDomain.MapFieldMisses` | codec/hessian/decode.go:871-905 | nor does a typed map with a null key or value |
| `HessianDomain.SliceFieldExact` | codec/hessian/decode.go:1215-1228 | a slice field takes an encoded list if and only if no element goes out as null; otherwise it panics |
| `HessianDomain.NilInSlice` | codec/hessian/decode.go:1215-1228 | the panicking input: a `[]interface{}` field that holds nil |
| `HessianDomain.RoundTripDomain` | codec/hessian/decode.go:147-215 | a typed value comes back, whatever follows it, if and only if it has no empty map at any depth, no null in a struct's slice or map, no compact negative integer and no empty binary data |
| `HessianDomain.StructsLoseStep` | codec/hessian/decode.go:330-332 | the input: an int64 field stops inside this int32, and what is read next is an empty map nobody wrote |
| `HessianDomain.EmptyMapField` | codec/hessian/decode.go:876-883 | an empty map's field loses some of whatever follows it: another value's tag, or a whole map, which it takes for its own |
| `HessianDomain.LastFieldEmptyMap` | codec/hessian/decode.go:1212-1213 | a struct that ends in an empty map and what follows it both come back if and only if nothing follows |
| `HessianFidelity.OrderExact` | codec/hessian/decode.go:988-1007 | filling a map with the entries in any order gives the same entries if and only if keys that collide on the wire carry equal values |
| `HessianOrder.TableSize` | codec/hessian/encode.go:574-593 | the class table that a map leaves has the same size in every iteration order |
| `HessianOrder.OrderDecodes` | codec/hessian/encode.go:404-416 | the decoder returns the same map for all iteration orders of the encoder if and only if keys that collide on the wire carry equal values |
| `HessianFidelity.ReadersAgreeExact` | codec/hessian/decode.go:871-905 | the two map readers agree on an encoded map, whose keys are not null and do not collide on the wire, if and only if no value goes out as null |
| `HessianFidelity.ReadersAgreeOnCollision` | codec/hessian/decode.go:871-905 | with colliding keys they may agree although a value is null |
| `HessianFidelity.LockStep` | codec/hessian/decode.go:1258-1280 | over a run of values, after each one the decoder has read exactly that many images and its class table is the encoder's |
| `HessianEncoder.Encoder.Append` | codec/hessian/encode.go:52-54 | bytes are added at the end of the buffer and nothing else changes |
| `HessianEncoder.Encoder.Encode` | codec/hessian/encode.go:57-135 | buffer and class table grow by exactly what the specification says |
| `HessianEncoder.Encoder.EncUntypedList` | codec/hessian/encode.go:376-391 | the same for a list, element after element |
| `HessianEncoder.Encoder.EncUntypedMap` | codec/hessian/encode.go:399-418 | the same for a map in one iteration order, with nothing for an empty one |
| `HessianEncoder.Encoder.FindClass` | codec/hessian/encode.go:577-583 | the position of a class in the table, or -1 |
| `HessianEncoder.Encoder.EncStruct` | codec/hessian/encode.go:564-610 | the definition is written once, before the first object of a class, and the index refers to it |
| `HessianDecoder.Decoder.Decode` | codec/hessian/decode.go:147-215 | value, error, unread bytes and class table are those of the specification, on every byte sequence; it terminates |
| `HessianString.HeaderLength` | codec/hessian/decode.go:504-535 | the tag and length bytes of every chunk header are read back as the number of runes it announces, and only non-final chunks have the continuation tag |
| `HessianDecoder.Decoder.DecString` | codec/hessian/decode.go:564-677 | the chunk loop reads what the specification reads, at end of input too |
| `HessianDecoder.Decoder.DecBinary` | codec/hessian/decode.go:719-762 | the chunk loop reads what the specification reads and rejects chunks over 4096 bytes |
| `HessianDecoder.Decoder.DecList` | codec/hessian/decode.go:790-863 | the loop fills a list, or stops at the first error |
| `HessianDecoder.Decoder.DecMap` | codec/hessian/decode.go:907-1012 | the loop peeks for the terminator and panics at end of input as the code does |
| `HessianDecoder.Decoder.DecMapByValue` | codec/hessian/decode.go:871-905 | the loop ends at the first null key |
| `HessianDecoder.Decoder.DecClassDef` | codec/hessian/decode.go:1083-1110 | a class definition is read as specified, on every byte sequence |
| `HessianDecoder.Decoder.DecObject` | codec/hessian/decode.go:1304-1361 | definitions are appended to the table before the object is read; unknown indexes fail |
| `HessianDecoder.Decoder.DecInstance` | codec/hessian/decode.go:1128-1256 | fields are set in the order of the definition, under the names it has |
| `HessianSession.Transfer` | codec/hessian/encode.go:40-135 | one encoder object and one decoder object over any run of values: images in order, trailing bytes unread, equal class tables, and the values themselves if and only if all are faithful |
| `PojoRegistry.RunKeeps` | codec/hessian/pojo.go:94-147 | over any run of registrations every type's index points at its own class information, and the list of classes only grows |
| `PojoRegistry.IndexIsForever` | codec/hessian/pojo.go:234-256 | an index once handed out finds the same type and class at any later time, and its stored bytes parse back to exactly that class |
| `PojoRegistry.RegisterStores` | codec/hessian/pojo.go:94-201 | the next index, the Java name and the wire field names are stored, and nothing else changes |
| `PojoRegistry.RegisterAgainExact` | codec/hessian/pojo.go:105-113 | a second registration is refused if and only if the Java name is the Go name; otherwise it makes a second definition |
| `PojoRegistry.RegisterAgainExample` | codec/hessian/pojo.go:93-113 | the comment's promise fails for `com.bdt.info.Department` |
| `PojoRegistry.EncStructDefinition` | codec/hessian/encode.go:584-593 | an object's definition is found, and is that of the decoder's schema, if and only if its type is known or its Java name is no registered Go name; registering on the fly makes no other difference |
| `PojoRegistry.EncStructExample` | codec/hessian/encode.go:584-593 | a type for which no definition is found |
| `PojoRegistry.Registry.RegisterPOJO` | codec/hessian/pojo.go:94-147 | the method's new state and result are those of the registry specification |
| `PojoRegistry.Registry.RegisterJavaEnum` | codec/hessian/pojo.go:150-201 | the same for enums |
| `DubboRequest.GetArgsTypeList` | codec/hessian/request.go:134-154 | the accumulated type list is the arguments' descriptors in order, or an error if and only if some argument has no type name |
| `DubboRequest.Descriptors` | codec/hessian/request.go:71-154 | the descriptor of each kind of argument |
| `DubboRequest.TypesSplitBack` | codec/hessian/request.go:71-154 | the type list can be cut back into one descriptor for each argument |
| `DubboRequest.FlagByteIsOr` | codec/hessian/request.go:182-189 | each bit of a message's third header byte is set if and only if it is in the template or is one of the low five bits of the request id |
| `DubboRequest.SerializationIdExact` | codec/hessian/request.go:182-189 | the template's low five bits survive if and only if the request id has none of them, or, for a heartbeat, not the fifth |
| `DubboRequest.SentExact` | codec/hessian/request.go:232-236 | a frame is sent if and only if its arguments have types and it has at most 8388608 bytes |
| `DubboRequest.FrameFlags` | codec/hessian/request.go:182-189 | of every frame: magic, each bit of the flag byte, and a zero status |
| `DubboRequest.FrameNumbers` | codec/hessian/request.go:191-238 | of every frame: id and body length, most significant byte first |
| `DubboRequest.FrameHeader` | codec/hessian/request.go:182-238 | every frame sent starts with the magic, holds the id and its length minus 16, and is at most 8388608 bytes; the patch leaves the body |
| `DubboRequest.BodyDecodes` | codec/hessian/request.go:203-229 | the body decodes in order to version, target, service version, method, types, argument images and the parameter map, with nothing left; a heartbeat to one null |
| `DubboRequest.DecodedValues` | codec/hessian/request.go:203-229 | the decoded body value by value: protocol version, target, service version, method, types, each argument, parameters |
| `DubboRequest.DecodedParams` | codec/hessian/request.go:219-229 | the parameter map entry by entry; the timeout reads back as whole milliseconds, cut off toward zero |
| `DubboRequest.NoVersion` | codec/hessian/request.go:219-227 | no entry of any order of the parameter map is the version |
| `DubboRequest.PutWord` | codec/hessian/request.go:191 | writing a word in place leaves the rest of the array |
| `DubboRequest.PackRequest` | codec/hessian/request.go:158-249 | the imperative function sends exactly the specified frame, or refuses one over the limit or with an argument that has no type name |
| `ServiceRegistry.KeyExact` | registry/config.go:45-47 | among protocols without an at sign, keys are equal if and only if service and protocol are |
| `ServiceRegistry.KeyOfParts` | registry/service_url.go:128-136 | a URL's key is its interface and its protocol, joined by an at sign |
| `ServiceRegistry.ServiceEqualExact` | registry/config.go:54-74 | a configuration accepts a URL if and only if protocol, interface, group and version are equal |
| `ServiceRegistry.CompatibleExact` | registry/zk/consumer.go:354-363 | a node is compatible if and only if it parses and has the four fields |
| `ServiceCache.SkipFilterExact` | selector/cache/cache.go:145-181 | removing while ranging equals filtering if and only if no two matches are neighbours |
| `ServiceCache.FilterServices` | selector/cache/cache.go:145-156 | the shift in place drops one element, keeps the others in order, and leaves the stale tail |
| `ServiceCache.RemoveByName` | selector/cache/cache.go:171-181 | the loop over the stale slice header, on a shifting array, leaves the filtered list, and the whole old slice as `Held` says |
| `ServiceCache.HeldExact` | selector/cache/cache.go:145-156 | a holder of the whole old slice sees no change if and only if what is removed is the last element or not there |
| `ServiceCache.LastWriterWins` | selector/cache/cache.go:158-198 | after any run of events a URL is cached exactly when its last event was an add or update; no list repeats a name; every URL is under its own key |
| `ServiceCache.UpdateInOrder` | selector/cache/cache.go:170-198 | an update keeps the other URLs of the key in their order, puts its own last, and leaves every other list |
| `ServiceCache.WithoutInOrder` | selector/cache/cache.go:145-156 | the list left is filtered part by part |
| `ServiceCache.EffectiveInOrder` | selector/cache/cache.go:270-283 | deliveries are passed on in their order |
| `ServiceCache.CacheSelector.Set` | selector/cache/cache.go:133-143 | a list is cached under its key, and an empty one gives its key up |
| `ServiceCache.CacheSelector.UpdateEvent` | selector/cache/cache.go:158-198 | the method on arrays refines the update of the simple view, and touches only the array of its key |
| `ServiceCache.CacheSelector.Watch` | selector/cache/cache.go:270-283 | a run of deliveries, each at its own time, refines the run of events, deletes over an invalid connection being dropped |
| `ServiceCache.CacheSelector.GetServices` | selector/cache/cache.go:81-130 | which of fresh copy, registry answer, shared fallback or failure is returned, and the new cache; a fresh copy suits the configuration if and only if all that is cached under its key does; among protocols without an at sign, all that is handed out of the cache is of the configuration's service and protocol |
| `ServiceCache.CacheSelector.RefreshThenGet` | selector/cache/cache.go:103-128 | an entry filled by the registry is copied out if and only if less than twice the configured time has passed |
| `ServiceCache.CacheSelector.UpdateThenGet` | selector/cache/cache.go:103-136 | the same for an entry updated by an event |
| `ServiceCache.OtherGroupServed` | selector/cache/cache.go:96-108 | a caller that asks for one group is handed the cached URLs of another |
| `ServiceCache.CacheSelector.GetThenWatch` | selector/cache/cache.go:70-130 | a slice handed out keeps its contents through any later run of events and gets, unless it is the shared fallback |
| `ServiceCache.CacheSelector.SharedThenDelete` | selector/cache/cache.go:119-122 | on every selector: the shared fallback's holder sees the elements behind a deleted one moved down and the last twice, hence a change if and only if the deleted one was not the last |
| `ServiceCache.SharedFallbackChanges` | selector/cache/cache.go:119-122 | a run that gets there: two URLs added, the entry expired, the registry failing, the first URL deleted |
| `ZkWatch.AddEventsExact` | registry/zk/watch.go:113-142 | an add is sent for exactly the new compatible nodes |
| `ZkWatch.DelEventsExact` | registry/zk/watch.go:148-166 | a delete is sent for exactly the vanished compatible nodes, and the diff panics if and only if a vanished node does not parse |
| `ZkWatch.EventsByField` | registry/zk/watch.go:113-166 | an add is sent for a new node and a delete for a vanished one if and only if protocol, interface, group and version are the configuration's |
| `ZkWatch.AddsThenDels` | registry/zk/watch.go:102-166 | all adds come before all deletes, and nothing is sent when the children cannot be read |
| `ZkWatch.AddsInOrder` | registry/zk/watch.go:113-142 | the adds follow the listing, one for a node at most |
| `ZkWatch.Watcher.HandleZkNodeEvent` | registry/zk/watch.go:101-167 | the loops put exactly the specified events on the channel, in order |
| `ZkWatch.DiffConverges` | registry/zk/watch.go:101-167 | fed with the events of a change, in any order and with spurious deletes, a cache of exactly the old compatible nodes becomes one of exactly the new |
| `ZkWatch.DiffDelivers` | registry/zk/watch.go:101-167 | the diff itself is such a delivery |
| `ZkWatch.RunConverges` | registry/zk/watch.go:171-233 | the same along any run of changes whose child lists chain |
| `ZkWatch.SelectorConverges` | selector/cache/cache.go:270-283 | with deletes dropped over an invalid connection, the cache converges if and only if for each vanished compatible node some delete got through |
| `ZkWatch.SelectorRun` | selector/cache/cache.go:270-283 | along any run of changes with deletes so dropped, a compatible node is cached if and only if it was listed at some point and no delete of it has got through since |
| `ZkWatch.AbsentDelete` | selector/cache/cache.go:170-184 | a delete of a node that is not cached changes no list |
| `ZkConsumer.GetServices` | registry/zk/consumer.go:353-377 | the answer lists each selected URL once |
| `ZkConsumer.SelectExact` | registry/zk/consumer.go:354-370 | the last compatible node of a location represents it if and only if its query parameter of that name holds no location selected before |
| `ZkConsumer.StoredExact` | registry/zk/consumer.go:354-370 | a compatible node alone at its location represents it if and only if it was stored one of the times it was listed |
| `ZkConsumer.SelectComplete` | registry/zk/consumer.go:354-370 | when no query parameter named like a location holds the location of a compatible node, each location is represented by the last compatible node that has it |
| `ZkConsumer.HostlessShadows` | registry/zk/consumer.go:365-368 | once a URL without a host is selected, one without a parameter named like its location is passed over |
| `ZkConsumer.AnswerFitsCache` | registry/zk/consumer.go:372-377 | the answer has distinct names, all under the configuration's key, as the cache asks |
| `ZkConsumer.SeedExact` | registry/zk/consumer.go:309-378 | a refreshed cache holds exactly the compatible nodes if and only if no two of them share a location and each was stored, that is, not passed over because of a query parameter |
| `ZkConsumer.SeededRun` | selector/cache/cache.go:114-129 | seeded under those two conditions and then fed by the watcher, the cache ends with exactly the compatible nodes of the last listing |
| `RoundRobin.Next.Call` | selector/mode.go:46-62 | the service selected; a call panics if and only if the wrapped sum is negative and not a multiple of the number of services |
| `RoundRobin.Next.Calls` | selector/mode.go:46-62 | calls with one ID on one closure take the services in turn |
| `RoundRobin.Fair` | selector/mode.go:46-62 | after k selections in turn over n services each was chosen k/n times, rounded down or up, and exactly which |
| `RoundRobin.FreshCalls` | selector/cache/cache.go:316 | a fresh closure for each of n consecutive IDs selects every service exactly once |
| `JsonRpcServer.ServerCodec.Reset` | codec/jsonrpc/server.go:107-116 | what the workspace points to is emptied in place |
| `JsonRpcServer.ServerCodec.UnmarshalJSON` | codec/jsonrpc/server.go:118-164 | with a clean workspace exactly the acceptable requests of section 4 of JSON-RPC 2.0 are taken, and their ID gets memory of its own; a leftover ID is reused |
| `JsonRpcServer.ServerCodec.ReadHeader` | codec/jsonrpc/server.go:166-210 | an accepted request gets the next number; a refusal keeps the invariant if and only if it leaves no ID behind |
| `JsonRpcServer.ServerCodec.ReadBody` | codec/jsonrpc/server.go:225-243 | the params of the latest request are parsed; without params, nothing is, unless an earlier request had some |
| `JsonRpcServer.ServerCodec.Take` | codec/jsonrpc/server.go:285-297 | a number is given up once, an unknown one is an error, and a notification ends there |
| `JsonRpcServer.ServerCodec.Send` | codec/jsonrpc/server.go:299-321 | the answer bears the ID of the request that got the number, whatever was read in between, and carries the result given, `null` for none, or the error, wrapped unless it is an object's text |
| `JsonRpcServer.RunReply` | codec/jsonrpc/server.go:276-322 | along a run, each Send of a number being written puts exactly that answer behind the replies there are, and it stays |
| `JsonRpcServer.AcceptableExact` | codec/jsonrpc/server.go:118-164 | the clauses of an acceptable request, with the characters that its texts may begin with |
| `JsonRpcServer.ServerCodec.Run` | codec/jsonrpc/server.go:166-322 | over any interleaving up to the first refusal, the codec on the heap does what a session without one does, step for step and reply for reply; number n is the n-th accepted request, answers bear the IDs of their requests, and no number is answered twice |
| `JsonRpcServer.Settled` | codec/jsonrpc/server.go:276-322 | when nothing is outstanding, each request with an ID has had exactly one answer and no notification has had any |
| `JsonRpcServer.AfterRefusal` | codec/jsonrpc/server.go:194-196 | after any request with an ID is refused for its method, the next notification passes for a request, and a refused null ID lets the next ID overwrite the package's `null` |
| `RpcPool.PoolConn.Close` | client/rpc_pool.go:38-46 | the first call closes the connection and resets its age; any other reports an error and changes nothing |
| `RpcPool.Pool.Pop` | client/rpc_pool.go:64-94 | the last connection that has not expired is handed out, those behind it are closed, the others stay; beyond `ttl` on the clock it is never a closed one |
| `RpcPool.Pool.Check` | client/rpc_pool.go:104-113 | a connection goes on to the pool unless it is closed or failed, and a failed one is closed |
| `RpcPool.Pool.Push` | client/rpc_pool.go:123-132 | a connection is pooled at the end of its list, or closed when the list is full |
| `RpcPool.Pool.Collect` | client/rpc_client.go:95-98 | closing a connection anywhere keeps the invariant |
| `RpcPool.PoolSafety` | client/rpc_pool.go:64-133 | no connection is pooled twice, or pooled and in use; lists are bounded; a closed pooled connection shows it; and no open connection is lost |
| `RpcPool.Run` | client/rpc_pool.go:64-133 | over any run of steps of any goroutines nothing is handed out while in use, a connection in use can be released exactly once, dialled connections are open, and pooled ones too once the clock has passed `ttl` |
| `RpcPool.CloseWhileReleasing` | client/rpc_pool.go:104-133 | a connection closed between the halves of its release is what the next caller gets, closed, if and only if the clock has not passed `ttl` |

## Left out

- Dates and doubles: `decDate` can come up short at a buffer edge, and the one-byte and two-byte double forms do not agree between writer and reader; their tags decode to an explicit `Unmodelled` outcome.
- Typed lists beyond their tags, typed maps and references, which the encoder never writes, and reading enums.
- Pointer POJOs, int8 and int16, `[]byte` fields and unexported fields, and the encoder's reflection on arbitrary slices and maps.
- The distinction between Go's `int` and `int64`, which have one wire form.
- HessianEncoder.Encoder.Encode: asks for struct types to be in the schema; when registering on the fly comes to the same is `EncStructDefinition`.
- HessianRoundTrip.RoundTrip: on encodable values, which `RoundTripDomain` shows to be necessary, and at most 256 classes, beyond which `HeaderExact` says which indexes go wrong.
- HessianPeer.FieldsInvert: on encodable values, as `RoundTrip`.
- HessianFidelity.RoundTripExact: on encodable values, as `RoundTrip`; `RoundTripDomain` is the statement on all typed ones.
- HessianDomain.RoundTripDomain: leaves out values that hold both a struct that is not encodable and, in some map, a value that is not encodable. Inside such a struct the decoder can lose step (`Int32AsInt64Exact`, `StructsLoseStep`) and then read anything, even an entry that repairs the map. An empty map in a struct's map field is the subject of `EmptyMapField` and `LastFieldEmptyMap` instead.
- HessianDomain.ElemsMiss: on values whose maps hold encodable values; `RoundTripDomain` covers the others by `StaysInStep`.
- HessianDomain.FieldsMiss: as `ElemsMiss`.
- HessianFidelity.ReadersAgreeExact: not for null keys, at which the reader of map fields stops, nor for colliding ones (`ReadersAgreeOnCollision`).
- Maps keyed by `interface{}` with another element type: `getMapKey` refuses the key after the map's tag is written (`codec/hessian/encode.go:459-481`), and the values here have no static types of their own.
- DubboRequest.BodyDecodes: for encodable arguments.
- DubboRequest.PackRequest: the errors of encoding an argument, which the code ignores, cannot arise for the registered arguments it asks for; those of the writer are not part of this model.
- HessianDecoder.Decoder.Decode: ends in `Unmodelled` on the forms of the first two lines.
- HessianDecoder.Decoder.DecString: ends in `Unmodelled` on the two short double forms.
- HessianDecoder.Decoder.DecList: ends in `Unmodelled` on typed lists.
- HessianDecoder.Decoder.DecMap: is the untyped branch; typed maps end in `Unmodelled` before it.
- HessianDecoder.Decoder.DecObject: has no enum classes.
- HessianDecoder.Decoder.DecInstance: has no enum, float, time or unsigned fields.
- ServiceCache.CacheSelector.Watch: the mutex and the goroutines around it are not part of the model.
- ServiceCache.CacheSelector.GetServices: takes the registry's answer as a list in an array of its own.
- ZkWatch.DiffConverges: takes child lists as chaining from one change to the next and as non-empty, since an empty directory is an error of the ZooKeeper client; connections, reconnection, `watchDir`'s waiting and the watches on single nodes are an environment that may add deletes.
- ZkConsumer.SelectComplete: supposes that no compatible URL has a query parameter that is named like its location and holds a location of a compatible node, which shuts out URLs without a host; `SelectExact`, `StoredExact` and `SeedExact` do not.
- RoundRobin.Next.Calls: non-negative IDs whose sums stay within int64; `Next.Call` says what happens outside.
- JsonRpcServer.ServerCodec.ReadHeader: starts from a parsed object, and supposes fewer than 2^63 - 1 requests; of the encoder only success or failure is kept. The response's result and error are as the code leaves them, which can be both.
- RpcPool.Pool.Pop: is one step with respect to the collector, which in the code does not take the pool's lock; that is, the age test and the handing out are not separated.
- URL parsing (a partial function that keeps the node name), JSON text, HTTP and TCP transports, logging, the random selector, provider registration, and errors of the writer that a request frame is written to.
