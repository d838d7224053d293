# libftpp in Dafny

A model of the core of libftpp, a C++ toolbox library, with proofs about that model. libftpp bundles:

- serialisation buffers: three generations of `DataBuffer`;
- design patterns: memento, observer, singleton, state machine, object pools;
- a thread-safe queue;
- integer vectors;
- a seeded 2D coordinate generator and a 2D Perlin-noise generator;
- network messages;
- a small "bonus" layer: application, timer, widget.

Every component is a Dafny module of immutable datatypes and pure functions:

- a mutating member function becomes a function from the old object to the new one;
- an exception becomes an `Err` of a `Result`;
- when the C++ code changes the object and then throws, the operation returns both the error and the changed object (`Step`, in module `Wrappers`);
- callbacks and listeners are opaque numbers, and "running" one means recording its number in the returned trace;
- the clock is an argument (milliseconds);
- bytes are the `byte` newtype of module `Bytes`, with the little-endian fixed widths of an LP64 host: `int` 4 bytes, `size_t`/`uint64_t`/`long long` 8, `bool` 1.

Modules, in the order of the source tree:

| module | component |
|---|---|
| `Wrappers`, `Bytes`, `Int32Arith` | results, bytes and encodings, 32-bit wrapping arithmetic |
| `DataBuffer` | `includes/data_structures/data_buffer.hpp`, `src/data_structures/data_buffer.cpp` (read and write cursors over a growable byte vector) |
| `FramedBuffer` | `include/data_buffer.hpp`, `src/data_buffer.cpp` (every value framed as a 32-bit length plus its text form) |
| `OldDataBuffer` | `old/include/data_buffer.hpp` (raw POD bytes, 64-bit string lengths) |
| `Memento`, `OldMemento` | `src/design_patterns/memento.cpp` and `old/src/memento.cpp` |
| `Message`, `OldMessage` | `src/network/message.cpp` and `old/src/message.cpp` |
| `ThreadSafeQueue`, `OldQueue`, `QueueReference` | `includes/threading/thread_safe_queue.hpp`, `old/include/thread_safe_queue.hpp`, and a two-list reference queue both are proved against |
| `ObjectPool`, `SlotPool`, `OldPool` | `includes/data_structures/pool.hpp`, `include/pool.hpp`, `old/include/pool.hpp` |
| `Observer`, `OldObserver` | `includes/design_patterns/observer.hpp`, `old/include/observer.hpp` |
| `Singleton`, `OldSingleton` | `includes/design_patterns/singleton.hpp`, `old/include/singleton.hpp` |
| `StateMachine`, `OldStateMachine` | `includes/design_patterns/state_machine.hpp`, `old/include/state_machine.hpp` |
| `IVector2`, `IVector3` | `includes/mathematics/ivector2.hpp`, `ivector3.hpp` (with `int` wrapping arithmetic) |
| `CoordinateGenerator` | `includes/mathematics/random_2D_coordinate_generator.hpp` |
| `PerlinNoise` | `includes/mathematics/perlin_noise_2D.hpp` |
| `Application`, `Timer`, `Widget` | `src/bonus/application.cpp`, `timer.cpp`, `widget.cpp` |

The main properties:

- every buffer, snapshot and message reads back what was written, with the exact error conditions of each `>>`;
- both queues behave as a reference queue, and closing the current queue loses nothing;
- pools hand out only free slots, and releasing is idempotent;
- the state machine's transitions succeed exactly on the registered pairs;
- vector operations satisfy their algebraic laws modulo 2^32;
- the coordinate generator is a pure function of seed and position;
- the Perlin generator's state machine is exactly the one it builds;
- a Perlin sample reads the corner hashes of its cell, and neighbouring cells share corners;
- generating an area returns the grid of samples, and the generator always comes back to rest;
- Perlin save and load round-trip the seed, the permutation and the gradients.

## Model

| member | source | states |
|---|---|---|
| `Bytes.DecodeEncode` | src/data_structures/data_buffer.cpp:150-187 | decoding the n little-endian bytes of any value below 256^n gives the value back |
| `Bytes.EncodeDecode` | src/data_structures/data_buffer.cpp:150-187 | re-encoding the value of any byte string at its own width gives the same bytes |
| `Bytes.EncodeInjective` | src/data_structures/data_buffer.cpp:150-159 | two same-width encodings are equal exactly when the values are |
| `Bytes.Int32RoundTrip` | includes/data_structures/data_buffer.hpp:106-118 | a 4-byte two's-complement `int` decodes to the value written |
| `Bytes.Int64RoundTrip` | includes/data_structures/data_buffer.hpp:106-118 | an 8-byte two's-complement `long long` decodes to the value written |
| `Bytes.EncodeBool` | includes/data_structures/data_buffer.hpp:106-107 | a `bool` is one byte, nonzero exactly when the value is true |
| `DataBuffer.New` | src/data_structures/data_buffer.cpp:12 | a new buffer has both cursors at 0, holds no content and is empty |
| `DataBuffer.Assign` | src/data_structures/data_buffer.cpp:35-43 | assignment copies storage and both cursors; self-assignment changes nothing |
| `DataBuffer.WriteBytes` | src/data_structures/data_buffer.cpp:131-159 | writing keeps the bytes before the write cursor and places the data right after them; the cursor advances by the data's length; the read cursor is kept; the content grows by exactly the data |
| `DataBuffer.ReadBytes` | src/data_structures/data_buffer.cpp:176-187 | reading fails exactly when the read cursor plus the size passes the write cursor, and then leaves the buffer unchanged; otherwise it returns the next bytes and advances the read cursor by the size |
| `DataBuffer.Append` | src/data_structures/data_buffer.cpp:63-65 | `append` adds the raw text to the content without a length prefix |
| `DataBuffer.Str` | src/data_structures/data_buffer.cpp:75-77 | `str` is exactly the bytes before the write cursor |
| `DataBuffer.Clear` | src/data_structures/data_buffer.cpp:89-93 | a cleared buffer is a new buffer |
| `DataBuffer.EmptyIffNoContent` | src/data_structures/data_buffer.cpp:103-118 | `empty` holds exactly when `str` is empty, and `size` is the length of `str` |
| `DataBuffer.Put` | includes/data_structures/data_buffer.hpp:106-107 | the generic `<<` appends the value's raw bytes to the unread part and grows `size` by their number |
| `DataBuffer.WriteInt` | includes/data_structures/data_buffer.hpp:106-107 | `<< int` appends the 4-byte encoding and keeps the read cursor |
| `DataBuffer.WriteBool` | includes/data_structures/data_buffer.hpp:106-107 | `<< bool` appends the 1-byte encoding |
| `DataBuffer.WriteSize` | includes/data_structures/data_buffer.hpp:106-107 | `<< size_t` appends the 8-byte encoding |
| `DataBuffer.WriteLongLong` | includes/data_structures/data_buffer.hpp:106-107 | `<< long long` appends the 8-byte encoding |
| `DataBuffer.ReadInt` | includes/data_structures/data_buffer.hpp:117-118 | `>> int` fails exactly when fewer than 4 bytes are unread, and then changes nothing; otherwise it decodes the next 4 bytes and consumes them |
| `DataBuffer.ReadBool` | includes/data_structures/data_buffer.hpp:117-118 | `>> bool` fails exactly when no byte is unread; otherwise it decodes and consumes one byte |
| `DataBuffer.ReadSize` | includes/data_structures/data_buffer.hpp:117-118 | `>> size_t` fails exactly when fewer than 8 bytes are unread; otherwise it decodes and consumes 8 bytes |
| `DataBuffer.ReadLongLong` | includes/data_structures/data_buffer.hpp:117-118 | `>> long long` fails exactly when fewer than 8 bytes are unread; otherwise it decodes and consumes 8 bytes |
| `DataBuffer.EncodeString` | src/data_structures/data_buffer.cpp:204-213 | a string is its 8-byte length followed by its bytes |
| `DataBuffer.WriteString` | src/data_structures/data_buffer.cpp:204-213 | `<< string` appends the length-prefixed string to the unread part |
| `DataBuffer.ReadString` | src/data_structures/data_buffer.cpp:228-240 | `>> string` fails with nothing consumed when fewer than 8 bytes are unread; fails after consuming the length when fewer bytes than it announces follow; it succeeds exactly when the length and that many bytes are unread, and then returns exactly those bytes and consumes them |
| `DataBuffer.Resized` | src/data_structures/data_buffer.cpp:234 | `std::string::resize` keeps the first `n` characters and pads with NUL bytes up to `n` |
| `DataBuffer.ReadStringInto` | src/data_structures/data_buffer.cpp:228-240 | the target string after `>> string`: the value read on success, untouched when the length is missing, and resized to the announced length when the content is short |
| `DataBuffer.ReadIntWritten` | includes/data_structures/data_buffer.hpp:106-118 | an `int` written in front of any rest reads back, leaving the rest |
| `DataBuffer.ReadBoolWritten` | includes/data_structures/data_buffer.hpp:106-118 | a `bool` written in front of any rest reads back, leaving the rest |
| `DataBuffer.ReadLongLongWritten` | includes/data_structures/data_buffer.hpp:106-118 | a `long long` written in front of any rest reads back, leaving the rest |
| `DataBuffer.ReadStringWritten` | src/data_structures/data_buffer.cpp:204-240 | a string written in front of any rest reads back, leaving the rest |
| `FramedBuffer.New` | src/data_buffer.cpp:3 | a new buffer holds nothing and has nothing unread |
| `FramedBuffer.Clear` | src/data_buffer.cpp:6-9 | a cleared buffer is a new buffer |
| `FramedBuffer.ResetReadPos` | src/data_buffer.cpp:11-13 | rewinding keeps the data and makes all of it unread |
| `FramedBuffer.Raw` | src/data_buffer.cpp:15-21 | `raw` has `size` bytes, and past the read position they are exactly the unread bytes |
| `FramedBuffer.RawHoldsRecords` | src/data_buffer.cpp:15-21 | after writes into a fresh buffer `raw` is exactly their records; each write extends it by its record, and reads, `resetReadPos` leave it alone while `clear` empties it |
| `FramedBuffer.Frame` | include/data_buffer.hpp:31-40 | a frame is a 4-byte length holding the text's length modulo 2^32, then the text |
| `FramedBuffer.FrameLengthExact` | include/data_buffer.hpp:35 | the stored length equals the text's length exactly when the text is shorter than 2^32 bytes |
| `FramedBuffer.Write` | include/data_buffer.hpp:31-40 | `<<` appends one frame and keeps the read cursor |
| `FramedBuffer.ReadText` | include/data_buffer.hpp:45-60 | `>>` fails with the length error and nothing consumed when fewer than 4 bytes are unread; fails with the object error after consuming the length when the announced text does not fit; otherwise it returns the announced text and consumes the frame |
| `FramedBuffer.ReadWritten` | include/data_buffer.hpp:31-60 | a frame written in front of any rest reads back, leaving the rest |
| `FramedBuffer.WriteAll` | include/data_buffer.hpp:31-40 | chained `<<` appends the frames in order |
| `FramedBuffer.ReadAll` | include/data_buffer.hpp:45-60 | chained `>>` of n values returns n texts when it succeeds |
| `FramedBuffer.ReadAllWritten` | include/data_buffer.hpp:31-60 | any texts written in front of any rest read back in order, leaving the rest |
| `FramedBuffer.ReadsBackWritten` | include/data_buffer.hpp:31-60 | the induction behind the in-order read-back: buffers holding the frames of some texts before a rest read those texts back and stop at the rest |
| `FramedBuffer.ReadFirstWritten` | include/data_buffer.hpp:45-60 | the first of several frames reads back as the first text and leaves the other frames unread |
| `FramedBuffer.ReadAllStep` | include/data_buffer.hpp:45-60 | one successful `>>` followed by successful reads of the other texts reads all of them |
| `FramedBuffer.FreshRoundTrip` | include/data_buffer.hpp:31-60 | writing texts into a new buffer, rewinding and reading returns them |
| `OldDataBuffer.New` | old/include/data_buffer.hpp:18 | a new buffer is empty |
| `OldDataBuffer.Clear` | old/include/data_buffer.hpp:58 | a cleared buffer is a new buffer |
| `OldDataBuffer.ResetReadPos` | old/include/data_buffer.hpp:60 | rewinding keeps the data and makes all of it unread |
| `OldDataBuffer.Raw` | old/include/data_buffer.hpp:59-61 | `raw` has `size` bytes, and past the read position they are exactly the unread bytes |
| `OldDataBuffer.FromRaw` | old/include/data_buffer.hpp:62 | `fromRaw` replaces the data and rewinds, so exactly the given bytes are unread |
| `OldDataBuffer.RawTracksWrites` | old/include/data_buffer.hpp:59-62 | `fromRaw` then `raw` gives the bytes back; `<<` extends `raw` by the value's bytes; reads and `resetReadPos` leave it alone and `clear` empties it |
| `OldDataBuffer.Put` | old/include/data_buffer.hpp:22-27 | the POD `<<` appends raw bytes and keeps the read cursor |
| `OldDataBuffer.Get` | old/include/data_buffer.hpp:31-38 | the POD `>>` fails with "not enough data" exactly when fewer than `sizeof(T)` bytes are unread, and then changes nothing; otherwise it returns and consumes them |
| `OldDataBuffer.WriteInt32` | old/include/data_buffer.hpp:22-27 | `<< int32_t` appends the 4-byte encoding |
| `OldDataBuffer.WriteU64` | old/include/data_buffer.hpp:22-27 | `<< uint64_t` appends the 8-byte encoding |
| `OldDataBuffer.ReadInt32` | old/include/data_buffer.hpp:31-38 | `>> int32_t` fails exactly when fewer than 4 bytes are unread; otherwise it decodes and consumes 4 bytes |
| `OldDataBuffer.ReadU64` | old/include/data_buffer.hpp:31-38 | `>> uint64_t` fails exactly when fewer than 8 bytes are unread; otherwise it decodes and consumes 8 bytes |
| `OldDataBuffer.ReadInt32Written` | old/include/data_buffer.hpp:22-38 | an `int32_t` written in front of any rest reads back, leaving the rest |
| `OldDataBuffer.ReadU64Written` | old/include/data_buffer.hpp:22-38 | a `uint64_t` written in front of any rest reads back, leaving the rest |
| `OldDataBuffer.EncodeString` | old/include/data_buffer.hpp:41-46 | a string is its 8-byte length followed by its bytes |
| `OldDataBuffer.WriteString` | old/include/data_buffer.hpp:41-46 | `<< string` appends the length-prefixed string |
| `OldDataBuffer.ReadStringAsWrittenWraps` | old/include/data_buffer.hpp:48-56 | with the 64-bit sum of the source, eight 0xFF bytes pass the bounds check, and the end of the range handed to `assign` wraps to one byte before its start |
| `OldDataBuffer.ReadStringAsWritten` | old/include/data_buffer.hpp:48-56 | with the source's 64-bit sum, the read fails with "not enough data" exactly when the length is missing, and hands `assign` a reversed range (its end wraps below its start) exactly when `readPos + 8 + len` reaches 2^64 |
| `Bytes.AllOnes` | old/include/data_buffer.hpp:49-50 | n bytes of 0xFF decode to 256^n - 1 |
| `OldDataBuffer.ReadString` | old/include/data_buffer.hpp:48-56 | `>> string` never reads past the data; it fails with "not enough data" exactly when the length cannot be read, and with the string error exactly when the announced bytes do not fit; otherwise it returns and consumes exactly them |
| `OldDataBuffer.ReadStringAgreesWithoutWrap` | old/include/data_buffer.hpp:48-56 | whenever the 64-bit sum does not wrap, the corrected read is the read as written |
| `OldDataBuffer.ReadStringWritten` | old/include/data_buffer.hpp:41-56 | a string written in front of any rest reads back, leaving the rest |
| `OldDataBuffer.ExampleRoundTrip` | old/include/data_buffer.hpp:22-56 | an `int`, a string and an `int` written into a new buffer read back in order, leaving nothing |
| `Memento.New` | src/design_patterns/memento.cpp:10-12 | a new snapshot is empty with nothing unread |
| `Memento.Assign` | src/design_patterns/memento.cpp:35-43 | snapshot assignment is buffer assignment; self-assignment changes nothing |
| `Memento.SaveString` | src/design_patterns/memento.cpp:63-66 | `save_string` appends the length-prefixed string and keeps the read cursor |
| `Memento.SaveInt` | src/design_patterns/memento.cpp:90-93 | `save_int` appends the 4-byte encoding |
| `Memento.SaveBool` | src/design_patterns/memento.cpp:146-149 | `save_bool` appends the 1-byte encoding |
| `Memento.LoadString` | src/design_patterns/memento.cpp:78-81 | `load_string` fails with nothing consumed when fewer than 8 bytes are unread, and after consuming the length when the content is short; it succeeds exactly when the length and that many bytes are unread, and then returns and consumes exactly them |
| `Memento.LoadStringInto` | src/design_patterns/memento.cpp:78-81 | the string `load_string` fills in is the value read on success, untouched when the length is missing, and resized to the announced length when the content is short |
| `Memento.LoadInt` | src/design_patterns/memento.cpp:104-109 | `load_int` fails exactly when fewer than 4 bytes are unread, and then changes nothing; otherwise it decodes and consumes them |
| `Memento.LoadBool` | src/design_patterns/memento.cpp:160-165 | `load_bool` fails exactly when no byte is unread; otherwise it decodes and consumes one |
| `Memento.Clear` | src/design_patterns/memento.cpp:185-188 | a cleared snapshot is a new, empty one |
| `Memento.EmptyIffNothingSaved` | src/design_patterns/memento.cpp:174-177 | a snapshot is empty exactly when its buffer holds no content |
| `Memento.Kinds` | includes/design_patterns/memento.hpp:81-91 | the kinds of a value list, position by position |
| `Memento.SaveValue` | includes/design_patterns/memento.hpp:81-82 | `<<` of one value appends its encoding |
| `Memento.SaveValues` | includes/design_patterns/memento.hpp:81-82 | chained `<<` appends the encodings in order |
| `Memento.LoadValue` | includes/design_patterns/memento.hpp:90-91 | `>>` of one value, when it succeeds, yields a value of the requested kind |
| `Memento.LoadValues` | includes/design_patterns/memento.hpp:90-91 | chained `>>` of n kinds yields n values when it succeeds |
| `Memento.LoadValueSaved` | includes/design_patterns/memento.hpp:81-91 | a value saved in front of any rest loads back, leaving the rest |
| `Memento.LoadValuesSaved` | includes/design_patterns/memento.hpp:81-91 | any values saved in front of any rest load back in order, leaving the rest |
| `Memento.Save` | src/design_patterns/memento.cpp:237-241 | `save` gives a fresh snapshot whose content is exactly what the object saved; it is empty exactly when nothing was saved |
| `Memento.Load` | src/design_patterns/memento.cpp:256-261 | `load` of n kinds yields n values when it succeeds |
| `Memento.SaveThenLoad` | src/design_patterns/memento.cpp:237-261 | loading what was saved, with the same kinds, restores the values |
| `OldMemento.New` | old/src/memento.cpp:22 | a new snapshot holds no bytes |
| `OldMemento.FromBuffer` | old/src/memento.cpp:24-26 | a snapshot made from a buffer holds the buffer's raw bytes |
| `OldMemento.ToDataBuffer` | old/src/memento.cpp:28-32 | the buffer of a snapshot is rewound and holds exactly its bytes, all unread |
| `OldMemento.UnwrapWrapped` | old/src/memento.cpp:24-32 | wrapping a buffer into a snapshot and back gives the same buffer, rewound |
| `OldMemento.SaveCounter` | old/tests/memento_test.cpp:14-18 | the counter saves exactly its 4-byte value |
| `OldMemento.LoadCounter` | old/tests/memento_test.cpp:20-23 | loading fails exactly when fewer than 4 bytes were saved; otherwise it decodes the first 4 |
| `OldMemento.CounterRoundTrip` | old/src/memento.cpp:11-20 | a saved counter loads back to its value |
| `OldMemento.CounterTest` | old/tests/memento_test.cpp:29-36 | the counter saved at 6 loads back to 6, whatever happened in between |
| `Message.New` | src/network/message.cpp:4-5 | a new message has the given type and an empty payload |
| `Message.Copy` | src/network/message.cpp:7-8 | a copy has the same type and payload, all of it unread |
| `Message.Assign` | src/network/message.cpp:10-17 | self-assignment changes nothing; any other assignment is a copy that rewinds the reader |
| `Message.Serialize` | src/network/message.cpp:23-33 | the wire form is the 4-byte type followed by the payload |
| `Message.Deserialize` | src/network/message.cpp:35-46 | it fails exactly on fewer than 4 bytes, and then the message is unchanged; otherwise the type is the first 4 bytes, the payload is the rest, and the reader is rewound |
| `Message.ResetRead` | src/network/message.cpp:48-50 | rewinding keeps type and payload and makes all of the payload unread |
| `Message.DeserializeSerialize` | src/network/message.cpp:23-46 | deserialising a serialised message gives a copy of it |
| `Message.SerializeDeserialize` | src/network/message.cpp:23-46 | serialising what was deserialised from any data gives the data back |
| `Message.EncodeDecodeInt32` | src/network/message.cpp:40 | any 4 bytes re-encode to themselves |
| `Message.Put` | includes/network/message.hpp:19-20 | the generic `<<` appends raw bytes to the payload and to its unread part |
| `Message.Get` | includes/network/message.hpp:22-26 | the generic `>>` fails exactly when fewer than `sizeof(T)` bytes are unread, and then changes nothing; otherwise it returns and consumes them |
| `Message.WriteInt` | includes/network/message.hpp:19-20 | `<< int` appends the 4-byte encoding |
| `Message.ReadInt` | includes/network/message.hpp:22-26 | `>> int` fails exactly when fewer than 4 bytes are unread; otherwise it decodes and consumes them |
| `Message.EncodeString` | src/network/message.cpp:57-64 | a string is its 8-byte length followed by its bytes |
| `Message.WriteString` | src/network/message.cpp:57-64 | `<< string` appends the length-prefixed string |
| `Message.ReadString` | src/network/message.cpp:66-87 | the string `>>` with the bounds check done without overflow: it fails with nothing consumed when fewer than 8 bytes are unread, and after consuming the length exactly when fewer bytes than announced follow; it succeeds exactly when the length and that many bytes are unread, and then returns and consumes exactly them |
| `Message.ReadStringAsWritten` | src/network/message.cpp:66-87 | with the source's 64-bit sum, the read fails on a missing length exactly when fewer than 8 bytes are unread, and ends in `std::length_error` exactly when `readPos + 8 + size` reaches 2^64 |
| `Message.ReadStringAsWrittenWraps` | src/network/message.cpp:70 | eight 0xFF bytes as the whole payload pass the check as written and end in `std::length_error`, where the corrected read reports "Not enough data to read string" |
| `Message.ReadStringAgreesWithoutWrap` | src/network/message.cpp:70 | whenever the 64-bit sum does not wrap, the read as written is the corrected read |
| `Message.ReadIntWritten` | includes/network/message.hpp:19-26 | an `int` written in front of any rest reads back, leaving the rest |
| `Message.ReadStringWritten` | src/network/message.cpp:57-76 | a string written in front of any rest reads back, leaving the rest |
| `Message.ReadIntThenString` | src/network/message.cpp:57-76 | an `int` then a string read back in order, leaving nothing |
| `Message.WireRoundTrip` | src/network/message.cpp:23-76 | a message of any type carrying an `int` and a string, sent through `serialize`/`deserialize` into any message, arrives with its type and both values |
| `Message.SentPayload` | src/network/message.cpp:57-64 | the payload of such a message is exactly the two encodings |
| `OldMessage.New` | old/src/message.cpp:5 | a new message has the given type and an empty buffer |
| `OldMessage.WithBuffer` | old/src/message.cpp:9-10 | the two-argument constructor keeps type and buffer |
| `OldMessage.Header` | old/src/message.cpp:13-17 | the header is 12 bytes: the 4-byte type, then the 8-byte payload size |
| `OldMessage.Serialize` | old/src/message.cpp:12-26 | the wire form is the header followed by the raw payload |
| `OldMessage.ReadHeader` | old/src/message.cpp:29-34 | reading the header fails with "not enough data" exactly when fewer than 12 bytes arrive; otherwise it decodes type and size |
| `OldMessage.DeserializeAsWrittenWraps` | old/src/message.cpp:38-40 | with the 64-bit sum of the source, a bare header announcing 2^64 - 1 bytes passes the size check, and the end of the range handed to `insert` wraps to one byte before its start |
| `OldMessage.DeserializeAsWritten` | old/src/message.cpp:28-43 | with the source's 64-bit sum, a raw message shorter than 12 bytes fails as a short header, and `insert` is handed a reversed range (its end wraps below its start) exactly when `12 + size` reaches 2^64 |
| `OldMessage.Deserialize` | old/src/message.cpp:28-43 | it never copies past the data; it fails exactly on a short header or an announced size larger than what follows; otherwise the payload buffer holds exactly the announced bytes |
| `OldMessage.DeserializeAgreesWithoutWrap` | old/src/message.cpp:38-40 | whenever the 64-bit sum does not wrap, the corrected check is the check as written |
| `OldMessage.DeserializeSerialize` | old/src/message.cpp:12-43 | deserialising a serialised message restores its type and its payload bytes, rewound |
| `OldMessage.WriteInt32` | old/include/message.hpp:23-27 | `<<` on a message is `<<` on its buffer |
| `OldMessage.WriteString` | old/include/message.hpp:30-33 | string `<<` on a message is string `<<` on its buffer |
| `OldMessage.ReadInt32` | old/include/message.hpp:36-40 | `>>` on a message succeeds exactly when `>>` on its buffer does, with the same value and buffer |
| `OldMessage.ReadString` | old/include/message.hpp:42-45 | string `>>` on a message succeeds exactly when it does on its buffer, with the same value and buffer |
| `OldMessage.MessageTest` | old/tests/message_test.cpp:4-17 | message 1 carrying 42 and "hello" arrives with its type and both values |
| `OldMessage.ReadIntThenString` | old/include/data_buffer.hpp:22-56 | an `int` then a string written into a buffer read back in order |
| `ThreadSafeQueue.NewIsEmpty` | includes/threading/thread_safe_queue.hpp:183 | a new queue is open, empty and of size 0 |
| `ThreadSafeQueue.PushBack` | includes/threading/thread_safe_queue.hpp:195-209 | `push_back` throws exactly when the queue is closed; otherwise the element is added at the back and the queue stays open |
| `ThreadSafeQueue.PushFront` | includes/threading/thread_safe_queue.hpp:211-225 | `push_front` throws exactly when the queue is closed; otherwise the element is added at the front |
| `ThreadSafeQueue.Push` | includes/threading/thread_safe_queue.hpp:115-117 | `push` throws the closed-queue error exactly when the queue is closed; otherwise it appends at the back and the queue stays open |
| `ThreadSafeQueue.PopFront` | includes/threading/thread_safe_queue.hpp:240-251 | `pop_front` throws `EmptyQueueException` exactly when the queue is empty; otherwise it returns the first element and the queue of the rest, closed or not as before |
| `ThreadSafeQueue.PopBack` | includes/threading/thread_safe_queue.hpp:227-238 | `pop_back` throws exactly when the queue is empty; otherwise it returns the last element and the queue of the rest |
| `ThreadSafeQueue.TryPop` | includes/threading/thread_safe_queue.hpp:127-138 | `try_pop(value)` reports false and leaves both the queue and `value` alone exactly when the queue is empty; otherwise it behaves as `pop_front` |
| `ThreadSafeQueue.TryPopShared` | includes/threading/thread_safe_queue.hpp:147-158 | the `shared_ptr` form returns null and leaves the queue alone exactly when it is empty; otherwise it behaves as `pop_front` |
| `ThreadSafeQueue.Close` | includes/threading/thread_safe_queue.hpp:275-286 | `close` sets the flag and keeps every element |
| `ThreadSafeQueue.EmptyIffSizeZero` | includes/threading/thread_safe_queue.hpp:262-271 | `empty` holds exactly when `size` is 0 |
| `ThreadSafeQueue.QueriesTrackCalls` | includes/threading/thread_safe_queue.hpp:262-292 | `size` grows by one with a push onto an open queue and drops by one with a pop; `empty` then fails; a pop throws exactly when `empty` holds; `close` sets `is_closed` and keeps `size`; a push is refused exactly when `is_closed` holds |
| `ThreadSafeQueue.State` | includes/threading/thread_safe_queue.hpp:337-347 | the tracked state is CLOSED exactly when closed, EMPTY exactly when open and empty, NORMAL exactly when open and not empty |
| `ThreadSafeQueue.CloseIsSticky` | includes/threading/thread_safe_queue.hpp:275-286 | on a closed queue every push fails, pops keep it closed, and its state is CLOSED |
| `ThreadSafeQueue.DrainYieldsAll` | includes/threading/thread_safe_queue.hpp:240-251 | popping from the front until empty yields exactly the elements, in order |
| `ThreadSafeQueue.CloseDiscardsNothing` | includes/threading/thread_safe_queue.hpp:283-284 | after `close`, popping still yields every element that was queued, in order |
| `ThreadSafeQueue.EncodeInts` | includes/threading/thread_safe_queue.hpp:305 | the elements take 4 bytes each |
| `ThreadSafeQueue.WriteInts` | includes/threading/thread_safe_queue.hpp:305 | writing the elements appends their encodings, front first |
| `ThreadSafeQueue.Save` | includes/threading/thread_safe_queue.hpp:297-307 | the snapshot holds the closed flag, the count and the elements, front first |
| `ThreadSafeQueue.ReadInts` | includes/threading/thread_safe_queue.hpp:316 | reading n elements yields n elements when it succeeds |
| `ThreadSafeQueue.ReadIntsWritten` | includes/threading/thread_safe_queue.hpp:305-316 | elements written in front of any rest read back in order, leaving the rest |
| `ThreadSafeQueue.Load` | includes/threading/thread_safe_queue.hpp:309-320 | a loaded queue has fewer than 2^64 elements |
| `ThreadSafeQueue.LoadSave` | includes/threading/thread_safe_queue.hpp:297-320 | loading a saved queue into any queue restores the elements and the closed flag, and hence the state |
| `QueueReference.Reverse` | includes/threading/thread_safe_queue.hpp:227-251 | the reversal of a sequence, position by position |
| `QueueReference.ReverseReverse` | includes/threading/thread_safe_queue.hpp:227-251 | reversing twice gives the sequence back |
| `QueueReference.Abs` | includes/threading/thread_safe_queue.hpp:90 | the queue a two-list deque stands for has all of its elements and its closed flag |
| `QueueReference.PopFrontAgrees` | includes/threading/thread_safe_queue.hpp:240-251 | the deque's front pop fails exactly when the queue's does, and otherwise returns the same element and the same rest |
| `QueueReference.PopBackAgrees` | includes/threading/thread_safe_queue.hpp:227-238 | the deque's back pop fails exactly when the queue's does, and otherwise returns the same element and the same rest |
| `QueueReference.PopBackFromBack` | includes/threading/thread_safe_queue.hpp:227-238 | with a nonempty back list, the queue's last element is the head of the back list |
| `QueueReference.PopBackFromFront` | includes/threading/thread_safe_queue.hpp:227-238 | with an empty back list, the queue's last element is the last of the front list |
| `QueueReference.PushBackAgrees` | includes/threading/thread_safe_queue.hpp:195-209 | consing onto the back list appends at the end of the queue |
| `QueueReference.StepAgrees` | includes/threading/thread_safe_queue.hpp:115-292 | every call observes the same result on the queue as on the deque, and leaves states that still correspond |
| `QueueReference.RunQueue` | includes/threading/thread_safe_queue.hpp:115-292 | a run of calls yields one observation per call |
| `QueueReference.RunDeque` | includes/threading/thread_safe_queue.hpp:115-292 | a run of calls on the deque yields one observation per call |
| `QueueReference.RunAgrees` | includes/threading/thread_safe_queue.hpp:115-292 | any sequence of calls observes the same results on the queue as on the deque, from any corresponding start |
| `QueueReference.FreshRunAgrees` | includes/threading/thread_safe_queue.hpp:183-292 | from a new queue and an empty deque, any sequence of calls observes the same results |
| `QueueReference.StepCount` | includes/threading/thread_safe_queue.hpp:195-292 | a successful push adds one element, a successful pop removes one, and every other call or failure changes no element |
| `OldQueue.NewIsEmpty` | old/include/thread_safe_queue.hpp:47 | a new queue is empty |
| `OldQueue.PushBack` | old/include/thread_safe_queue.hpp:16-19 | `push_back` adds the element at the back |
| `OldQueue.PushFront` | old/include/thread_safe_queue.hpp:22-25 | `push_front` adds the element at the front |
| `OldQueue.PopBack` | old/include/thread_safe_queue.hpp:28-34 | `pop_back` throws exactly on an empty queue; otherwise it returns the last element and the rest |
| `OldQueue.PopFront` | old/include/thread_safe_queue.hpp:37-43 | `pop_front` throws exactly on an empty queue; otherwise it returns the first element and the rest |
| `OldQueue.LengthChanges` | old/include/thread_safe_queue.hpp:16-43 | each push adds one element and each successful pop removes one |
| `OldQueue.QueueTest` | old/include/thread_safe_queue.hpp:16-43 | popping an empty queue fails; after pushing 10 at the back and 5 at the front, the front pop gives 5 and the back pop then gives 10 |
| `OldQueue.AgreesWithOpenQueue` | old/include/thread_safe_queue.hpp:16-43 | the old queue behaves as the current queue while it is open: the same pushes, and the same pop results and rests |
| `ObjectPool.CountTrue` | includes/data_structures/pool.hpp:190 | the number of available objects never exceeds the number of slots |
| `ObjectPool.CountTrueAppend` | includes/data_structures/pool.hpp:190 | the count over two concatenated flag lists is the sum of the counts |
| `ObjectPool.CountTrueAllTrue` | includes/data_structures/pool.hpp:151 | n fresh objects, all marked available, count as n |
| `ObjectPool.CountTrueUpdate` | includes/data_structures/pool.hpp:190-199 | changing one flag changes the count by exactly that flag's difference |
| `ObjectPool.FirstAvailable` | includes/data_structures/pool.hpp:165-178 | the index picked is available and no lower index is; there is none exactly when no object is available |
| `ObjectPool.NewIsEmpty` | includes/data_structures/pool.hpp:126-132 | a new pool has `get_capacity` 0 and `get_available_count` 0 |
| `ObjectPool.Resize` | includes/data_structures/pool.hpp:143-155 | `resize` throws exactly on a smaller capacity; otherwise the existing objects and flags are kept, the new slots hold default objects marked available, and the available count grows by the number added |
| `ObjectPool.Acquire` | includes/data_structures/pool.hpp:157-165 | `acquire()` throws exactly when nothing is available; otherwise it hands out an available slot's object unchanged, marks that slot taken, and lowers the available count by one |
| `ObjectPool.AcquireWith` | includes/data_structures/pool.hpp:167-178 | `acquire(args)` throws exactly when nothing is available; otherwise it rebuilds the object of an available slot from the arguments and marks that slot taken |
| `ObjectPool.NoneAvailableMeansZero` | includes/data_structures/pool.hpp:160 | with every flag false, the available count is 0 |
| `ObjectPool.Release` | includes/data_structures/pool.hpp:195-199 | releasing marks the slot available, keeps every object, and ignores an index past the capacity; releasing a taken slot raises the available count by one |
| `ObjectPool.Destroy` | includes/data_structures/pool.hpp:70-74 | destroying an `Object` releases its slot; a moved-from one releases nothing |
| `ObjectPool.Move` | includes/data_structures/pool.hpp:80-84 | moving transfers the slot and leaves the source invalid |
| `ObjectPool.Deref` | includes/data_structures/pool.hpp:116-121 | dereferencing fails with the "objeto no válido" error exactly on an invalid `Object`; otherwise it yields the slot's object |
| `ObjectPool.AcquireThenDestroy` | includes/data_structures/pool.hpp:167-199 | an object acquired with arguments dereferences to them, and destroying its handle restores the pool's flags |
| `ObjectPool.AvailableWithinCapacity` | includes/data_structures/pool.hpp:184-190 | `get_available_count` never exceeds `get_capacity` |
| `SlotPool.Countdown` | include/pool.hpp:83-85 | the free list built by `resize` lists n - 1 down to 0 |
| `SlotPool.NewIsEmpty` | include/pool.hpp:72 | a new pool has no slots and no free index |
| `SlotPool.Clear` | include/pool.hpp:121-132 | `clear` gives an empty pool |
| `SlotPool.Resize` | include/pool.hpp:76-86 | `resize` discards everything and leaves n unused slots whose free list counts down from n - 1 |
| `SlotPool.Acquire` | include/pool.hpp:90-101 | `acquire` throws exactly when the free list is empty; otherwise it takes the last free index, which was not in use, and constructs the object there |
| `SlotPool.Release` | include/pool.hpp:105-112 | releasing a slot in use empties it and pushes its index onto the free list; an out-of-range or unused index changes nothing |
| `SlotPool.GetObjectAt` | include/pool.hpp:114-119 | `getObjectAt` throws exactly when the index is out of range or not in use; otherwise it yields the slot's object |
| `SlotPool.ReleaseThenAcquireReuses` | include/pool.hpp:94-111 | the next acquire after a release reuses the released index |
| `SlotPool.AcquireAll` | include/pool.hpp:90-101 | acquiring for n values, when it succeeds, yields n indices |
| `SlotPool.Down` | include/pool.hpp:83-85 | the part of the free list still unused after k acquires |
| `SlotPool.AcquireStep` | include/pool.hpp:94-95 | after k acquires from a fresh free list of n, the next acquire gets index k |
| `SlotPool.AcquireCountdown` | include/pool.hpp:83-95 | consecutive acquires from that point get indices k, k + 1, and so on |
| `SlotPool.ResizeThenAcquireInOrder` | include/pool.hpp:76-101 | after `resize(n)`, up to n acquires succeed and get indices 0, 1, 2, and so on |
| `SlotPool.AcquireBeyondCapacity` | include/pool.hpp:91-92 | with every slot in use, `acquire` throws |
| `SlotPool.HandleRelease` | include/pool.hpp:58-64 | `Object::release` detaches the handle and releases its slot once; a detached handle changes nothing |
| `SlotPool.ReleaseIdempotent` | include/pool.hpp:47-64 | releasing a handle twice, as an explicit release followed by the destructor does, is the same as releasing it once |
| `SlotPool.Move` | include/pool.hpp:33-36 | the move constructor transfers the slot and detaches the source |
| `SlotPool.MoveAssign` | include/pool.hpp:37-46 | move assignment releases the target's own slot first and then takes over the source's; self-assignment changes nothing |
| `SlotPool.Deref` | include/pool.hpp:50-55 | dereferencing an attached handle is `getObjectAt` on its index; a detached one, undefined behaviour in the source, yields the `NullHandle` error |
| `SlotPool.PoolExample` | include/pool.hpp:76-119 | in a pool of 2, acquiring 10 and 20 gets slots 0 and 1 with those values; after releasing both, the next acquire reuses slot 0 |
| `OldPool.NewIsEmpty` | old/include/pool.hpp:88-90 | a new pool has allocated no block and has nothing free or constructed |
| `OldPool.Fresh` | old/include/pool.hpp:67-72 | the blocks allocated by one `resize` are numbered consecutively |
| `OldPool.Resize` | old/include/pool.hpp:65-73 | `resize(n)` allocates n more blocks and appends them to the free list; nothing constructed changes |
| `OldPool.Acquire` | old/include/pool.hpp:76-85 | `acquire` throws exactly on an empty free list; otherwise it takes the last free block, constructs the object there and returns an active handle on it |
| `OldPool.Release` | old/include/pool.hpp:48-57 | releasing an active handle destroys its object, returns its block to the free list and deactivates the handle; an inactive or empty handle changes nothing |
| `OldPool.ReleaseKeepsValid` | old/include/pool.hpp:48-57 | releasing keeps the pool's free list and constructed set consistent |
| `OldPool.ReleaseOnce` | old/include/pool.hpp:42-57 | releasing twice is the same as releasing once |
| `OldPool.Move` | old/include/pool.hpp:24-28 | the move constructor transfers the block and leaves the source empty and inactive |
| `OldPool.MoveAssign` | old/include/pool.hpp:30-40 | move assignment releases the target's block and then takes over the source's; self-assignment changes nothing |
| `OldPool.MovedFromReleasesNothing` | old/include/pool.hpp:24-57 | after a move, only the destination gives the block back |
| `OldPool.ResizeAccumulates` | old/include/pool.hpp:65-73 | two resizes add up: the blocks and the free list grow by both amounts |
| `Observer.NewHasNoListeners` | includes/design_patterns/observer.hpp:52 | a new observer has no listener for any event, so a notification calls nobody |
| `Observer.Subscribe` | includes/design_patterns/observer.hpp:74-82 | `subscribe` appends the listener to the event's list, after the earlier ones; every other event's list is unchanged; the count grows by one |
| `Observer.Notify` | includes/design_patterns/observer.hpp:84-92 | `notify(event, arg)` calls each listener of the event once, in subscription order, each with `arg`; with no listener nothing is called |
| `Observer.NotifyPlain` | includes/design_patterns/observer.hpp:166-172 | the argument-less `notify` calls each listener of the event once, in subscription order |
| `Observer.Unsubscribe` | includes/design_patterns/observer.hpp:94-98 | `unsubscribe` removes every listener of the event and no other |
| `Observer.HasSubscribers` | includes/design_patterns/observer.hpp:100-112 | `has_subscribers` holds exactly when `get_subscriber_count` is positive |
| `Observer.NotifyAfterSubscribing` | includes/design_patterns/observer.hpp:74-92 | after any sequence of subscriptions, notifying an event calls its earlier listeners, then the new ones for that event, in order |
| `Observer.NotifyCarriesArg` | includes/design_patterns/observer.hpp:84-92 | the argument form calls the same listeners as the plain form, each with the argument |
| `Observer.ResubscribeAfterUnsubscribe` | includes/design_patterns/observer.hpp:74-98 | after `unsubscribe` and one `subscribe`, only the new listener is called |
| `OldObserver.NewHasNoListeners` | old/include/observer.hpp:30 | a new observer maps no event, so a notification calls nobody |
| `OldObserver.Subscribe` | old/include/observer.hpp:16-18 | `subscribe` creates the event's list if needed and appends the listener; other events are unchanged |
| `OldObserver.Notify` | old/include/observer.hpp:21-26 | `notify` calls nothing for an unknown event, and otherwise each listener of the event, in order |
| `OldObserver.AgreesWithCurrent` | old/include/observer.hpp:16-26 | from corresponding starting states, any sequence of subscriptions leaves the old and the current observer calling the same listeners for every event |
| `OldObserver.CounterTest` | old/tests/observer_test.cpp:7-33 | with listeners adding 1 and 10 on event 1 and 100 on event 2, notifying event 1 adds 11, event 2 brings the total to 111, and event 999 calls nothing |
| `Singleton.Instance` | includes/design_patterns/singleton.hpp:47-55 | `instance` throws exactly when nothing was instantiated, and otherwise yields the instance |
| `Singleton.Instantiate` | includes/design_patterns/singleton.hpp:57-67 | `instantiate` throws exactly when an instance exists; otherwise `instance` then yields the new object |
| `Singleton.Destroy` | includes/design_patterns/singleton.hpp:69-75 | after `destroy` nothing is instantiated; with nothing instantiated it changes nothing |
| `Singleton.InstantiatedTracksCalls` | includes/design_patterns/singleton.hpp:77-81 | `is_instantiated` is false at the start and after `destroy`, true after a successful `instantiate`, and true exactly when `instance` does not throw |
| `Singleton.DestroyThenInstantiate` | includes/design_patterns/singleton.hpp:57-81 | after `destroy`, one `instantiate` succeeds, `instance` yields it, and a second `instantiate` throws |
| `OldSingleton.Instantiate` | old/include/singleton.hpp:13-18 | `instantiate` throws "Instance already exists" exactly when an instance exists; otherwise it stores the new object |
| `OldSingleton.Instance` | old/include/singleton.hpp:20-24 | `instance` throws "Instance not yet created" exactly when there is none, and otherwise yields it |
| `OldSingleton.AgreesWithCurrent` | old/include/singleton.hpp:13-24 | the old and the current singleton accept and refuse the same calls and yield the same instance |
| `OldSingleton.SingletonTest` | old/tests/singleton_test.cpp:13-30 | instantiating 42 succeeds, the instance is 42, and instantiating 7 then throws |
| `StateMachine.NewIsEmpty` | includes/design_patterns/state_machine.hpp:67-74 | a new machine has no state, no transition and no initial state, so `getCurrentState` throws |
| `StateMachine.AddState` | includes/design_patterns/state_machine.hpp:78-86 | `addState` throws exactly when the state already exists; otherwise it appends the state, and the first state added becomes the current one; actions and transitions are unchanged |
| `StateMachine.AddTransition` | includes/design_patterns/state_machine.hpp:88-99 | `addTransition` throws exactly when either state is unknown; otherwise it registers the callback for the pair, replacing an earlier one, and changes nothing else |
| `StateMachine.AddAction` | includes/design_patterns/state_machine.hpp:101-110 | `addAction` throws exactly when the state is unknown; otherwise it registers the state's action and changes nothing else |
| `StateMachine.CanTransitionTo` | includes/design_patterns/state_machine.hpp:143-148 | `canTransitionTo` holds exactly when there is a current state and the pair from it is registered |
| `StateMachine.GetCurrentState` | includes/design_patterns/state_machine.hpp:136-141 | `getCurrentState` throws exactly when there is no initial state, and otherwise yields the current state |
| `StateMachine.TransitionTo` | includes/design_patterns/state_machine.hpp:112-123 | `transitionTo` throws with no initial state, with an unknown target, or with no registered transition from the current state; otherwise it runs the pair's callback and makes the target current |
| `StateMachine.Update` | includes/design_patterns/state_machine.hpp:125-132 | `update` throws exactly when there is no initial state; otherwise it runs the current state's action, or nothing when there is none |
| `StateMachine.AddStateValid` | includes/design_patterns/state_machine.hpp:78-86 | a successful `addState` keeps the machine's invariant: distinct states, a current state among them, actions and transitions only on known states |
| `StateMachine.AddTransitionValid` | includes/design_patterns/state_machine.hpp:88-99 | a successful `addTransition` keeps the invariant |
| `StateMachine.AddActionValid` | includes/design_patterns/state_machine.hpp:101-110 | a successful `addAction` keeps the invariant |
| `StateMachine.TransitionToValid` | includes/design_patterns/state_machine.hpp:112-123 | a successful `transitionTo` keeps the invariant |
| `StateMachine.TransitionIffCan` | includes/design_patterns/state_machine.hpp:112-148 | in a valid machine `transitionTo` succeeds exactly when `canTransitionTo` holds |
| `StateMachine.TransitionsAreStatePairs` | includes/design_patterns/state_machine.hpp:93 | in a valid machine every registered transition joins two known states |
| `StateMachine.QueriesTrackAdds` | includes/design_patterns/state_machine.hpp:150-167 | after `addState` `hasState` holds for the new state and for exactly the states known before, and `getStateCount` has grown by one; `addTransition` grows `getTransitionCount` by one exactly for a new pair; a valid machine has a current state exactly when `getStateCount` is positive |
| `StateMachine.AddStatesKeepsFirst` | includes/design_patterns/state_machine.hpp:83-84 | adding a list of new states appends them, keeps the invariant, and leaves the current state as before or, if there was none, the first one added |
| `OldStateMachine.New` | old/include/state_machine.hpp:47-50 | a new machine starts in the default state with no state, action or transition |
| `OldStateMachine.AddState` | old/include/state_machine.hpp:16-18 | `addState` records the state and changes nothing else |
| `OldStateMachine.AddTransition` | old/include/state_machine.hpp:21-23 | `addTransition` registers the callback for the pair, replacing an earlier one |
| `OldStateMachine.AddAction` | old/include/state_machine.hpp:26-28 | `addAction` registers the state's action, replacing an earlier one |
| `OldStateMachine.TransitionTo` | old/include/state_machine.hpp:31-36 | `transitionTo` throws "Transition not defined!" exactly when the pair from the current state is not registered; otherwise it runs its callback and makes the target current |
| `OldStateMachine.Update` | old/include/state_machine.hpp:39-43 | `update` throws exactly when the current state has no action, and otherwise runs it |
| `OldStateMachine.AgreesWithChecked` | old/include/state_machine.hpp:31-43 | on a machine the current version could have built, the old version accepts the same transitions with the same callbacks; its `update` runs the same action, but it throws where the current version does nothing |
| `OldStateMachine.TestWalk` | old/tests/state_machine_test.cpp:9-41 | the test's machine goes Idle, Running, Stopped, and each `update` runs that state's action |
| `Application.New` | src/bonus/application.cpp:5-10 | a new application has the four states, INITIALIZING current, no transition, no action, no widget, and is not initialised |
| `Application.NewAddsFourStates` | src/bonus/application.cpp:6-9 | the four `addState` calls build exactly that machine |
| `Application.Move` | src/bonus/application.cpp:15 | a transition attempt fails with the state machine's error and changes nothing, or succeeds with the machine moved |
| `Application.Initialize` | src/bonus/application.cpp:12-19 | `initialize` does nothing when already initialised; otherwise it sets the flag and then attempts INITIALIZING, so the flag is set even when that throws |
| `Application.Run` | src/bonus/application.cpp:21-27 | `run` does nothing before `initialize`, and otherwise attempts RUNNING |
| `Application.Pause` | src/bonus/application.cpp:29-35 | `pause` attempts PAUSED only from RUNNING, does nothing in any other state, and throws when there is no state |
| `Application.Resume` | src/bonus/application.cpp:37-43 | `resume` attempts RUNNING only from PAUSED, does nothing in any other state, and throws when there is no state |
| `Application.Shutdown` | src/bonus/application.cpp:45-49 | `shutdown` always attempts SHUTTING_DOWN: it succeeds exactly when that state is known and a transition to it from the current state is registered, and then only the current state changes; otherwise nothing changes |
| `Application.AddWidget` | src/bonus/application.cpp:51-55 | `addWidget` appends the widget, grows the count by one and leaves the state alone |
| `Application.Without` | src/bonus/application.cpp:58-61 | the kept widgets are those of another name, in order: none of them has the name, every other widget is kept, and the count drops by the number of matches |
| `Application.RemoveWidget` | src/bonus/application.cpp:57-68 | `removeWidget` removes every widget of that name, lowers the count by their number and leaves the state alone |
| `Application.GetCurrentState` | src/bonus/application.cpp:74-76 | `getCurrentState` throws the machine's no-initial-state error exactly when the machine has no current state, and otherwise yields it |
| `Application.WithoutDistributes` | src/bonus/application.cpp:58-64 | removal by name works piecewise over a concatenation |
| `Application.AddThenRemove` | src/bonus/application.cpp:51-68 | adding a widget and removing its name leaves the earlier widgets without that name |
| `Application.NeverLeavesInitializing` | src/bonus/application.cpp:5-49 | since the constructor registers no transition, the first `initialize` throws, later ones do nothing, `run` throws after `initialize`, `shutdown` always throws, `pause` and `resume` do nothing, and the state stays INITIALIZING |
| `Timer.Left` | src/bonus/timer.cpp:23 | the time left is the duration minus the elapsed time, floored at 0, and is 0 exactly when the duration has passed |
| `Timer.New` | src/bonus/timer.cpp:4 | a new timer is stopped, not paused, with zero duration and nothing remaining |
| `Timer.SetDuration` | src/bonus/timer.cpp:6-9 | `setDuration` sets both the duration and the remaining time and nothing else |
| `Timer.Start` | src/bonus/timer.cpp:11-17 | `start` runs the timer unpaused from now, with the full duration remaining |
| `Timer.Pause` | src/bonus/timer.cpp:19-27 | `pause` of a running timer freezes the remaining time at the duration minus the elapsed time, floored at 0; otherwise it changes nothing |
| `Timer.ResumeAsWritten` | src/bonus/timer.cpp:29-35 | `resume` as written restarts the clock from now and unpauses; otherwise it changes nothing |
| `Timer.Resume` | src/bonus/timer.cpp:29-35 | the corrected `resume` unpauses and then counts down from the time frozen at the pause |
| `Timer.Stop` | src/bonus/timer.cpp:37-41 | `stop` clears both flags and keeps the rest |
| `Timer.HasExpired` | src/bonus/timer.cpp:43-56 | `hasExpired` is false for a stopped or paused timer; otherwise it holds exactly when the duration has elapsed, and it then stops the timer |
| `Timer.GetRemainingTime` | src/bonus/timer.cpp:58-65 | a stopped or paused timer reports its stored remaining time; a running one reports the duration minus the elapsed time, floored at 0 |
| `Timer.FlagsFollowCalls` | src/bonus/timer.cpp:4-72 | `isRunning` and `isPaused` follow the calls: both false when new and after `stop`; `start` runs unpaused; `pause` of a running timer pauses it; `resume` of a paused one unpauses it; an expiry found by `hasExpired` stops it |
| `Timer.ExpiredIffNothingLeft` | src/bonus/timer.cpp:43-65 | a running timer has expired exactly when no time is left |
| `Timer.PauseFreezes` | src/bonus/timer.cpp:19-27 | after a pause, the remaining time stays what it was at the pause, and the timer never expires |
| `Timer.StartedCountsDown` | src/bonus/timer.cpp:11-65 | after `start`, the remaining time stays between 0 and the duration, and the timer expires exactly once the duration has elapsed |
| `Timer.ResumeContinues` | src/bonus/timer.cpp:19-35 | with the corrected `resume`, the time left after a pause and a resume is the time left at the pause minus the time run since the resume |
| `Timer.ResumeAsWrittenForgetsPause` | src/bonus/timer.cpp:29-35 | with `resume` as written, the time left right after resuming is the full duration, whatever ran before the pause |
| `Timer.PauseTest` | examples/test_timer.cpp:28-44 | for 3000 ms, paused at 1000 and resumed at 2000: as written, expiry comes at 5000 ms; corrected, at 4000 ms |
| `Widget.New` | src/bonus/widget.cpp:4-7 | a new widget has the given name and is visible |
| `Widget.Show` | src/bonus/widget.cpp:35-38 | `show` makes it visible and keeps the name |
| `Widget.Hide` | src/bonus/widget.cpp:40-43 | `hide` makes it invisible and keeps the name |
| `Widget.RendersIffVisible` | src/bonus/widget.cpp:29-51 | `render` draws exactly when `isVisible` holds: always after `show`, never after `hide`; neither changes `getName` |
| `Widget.Save` | src/bonus/widget.cpp:14-17 | the snapshot holds the name as a length-prefixed string, then the visibility byte |
| `Widget.Load` | src/bonus/widget.cpp:19-22 | a load that throws on the length changes nothing; one that throws on the content leaves the name resized to the announced length; one that throws on the flag keeps the new name; on success the widget has the loaded name and flag |
| `Widget.ShortNameExample` | src/bonus/widget.cpp:19-22 | a snapshot announcing 2 name bytes but holding 1, loaded into "hello", throws and leaves the name cut to "he": the string is resized before the content is found short, and nothing is copied |
| `Widget.LoadSaved` | src/bonus/widget.cpp:14-22 | loading a widget's snapshot into any widget makes it equal to the saved one |
| `Int32Arith.Wrap` | includes/mathematics/ivector2.hpp:19-21 | an `int` result is the exact value reduced modulo 2^32 into the `int` range, and an in-range value is unchanged |
| `Int32Arith.WrapAdd` | includes/mathematics/ivector2.hpp:19-21 | wrapping an intermediate sum does not change the wrapped total |
| `Int32Arith.WrapMul` | includes/mathematics/ivector2.hpp:27-29 | wrapping an intermediate product does not change the wrapped total |
| `Int32Arith.NegTwice` | includes/mathematics/ivector2.hpp:67-69 | negating an `int` twice, with wrapping, gives it back, including `INT_MIN` |
| `Int32Arith.AddThenSub` | includes/mathematics/ivector2.hpp:19-25 | adding and then subtracting the same value, with wrapping, gives the original `int` back |
| `Int32Arith.CancelTurned` | includes/mathematics/ivector2.hpp:63-69 | x·y + y·(-x), with wrapping, is 0 |
| `Int32Arith.CancelCross` | includes/mathematics/ivector3.hpp:64-74 | the wrapped dot product of a vector with anything congruent modulo 2^32 to its cross product with another is 0 |
| `Int32Arith.WrapSumZero` | includes/mathematics/ivector3.hpp:64-65 | three terms congruent to three whose sum is 0 wrap to 0 |
| `Int32Arith.Quot` | includes/mathematics/ivector2.hpp:31-33 | C++ integer division truncates toward zero: the remainder is smaller than the divisor in magnitude and has the dividend's sign |
| `Int32Arith.QuotRemainder` | includes/mathematics/ivector2.hpp:31-33 | the magnitude quotient with the sign of the operands leaves exactly such a remainder |
| `IVector2.Add` | includes/mathematics/ivector2.hpp:19-21 | `+` adds the components modulo 2^32 |
| `IVector2.Sub` | includes/mathematics/ivector2.hpp:23-25 | `-` subtracts the components modulo 2^32 |
| `IVector2.Mul` | includes/mathematics/ivector2.hpp:27-29 | `*` multiplies the components modulo 2^32 |
| `IVector2.Div` | includes/mathematics/ivector2.hpp:31-33 | `/` divides the components with truncation, for nonzero divisors |
| `IVector2.Scale` | includes/mathematics/ivector2.hpp:35-37 | `* scalar` multiplies both components by the scalar modulo 2^32 |
| `IVector2.ScaleLeft` | includes/mathematics/ivector2.hpp:87-90 | each coordinate of `scalar * vec` is `scalar` times the coordinate, wrapped to `int`; it is the same vector as `vec * scalar` |
| `IVector2.DivScalar` | includes/mathematics/ivector2.hpp:39-41 | `/ scalar` divides both components with truncation |
| `IVector2.Eq` | includes/mathematics/ivector2.hpp:44-46 | `==` holds exactly when both components are equal |
| `IVector2.Ne` | includes/mathematics/ivector2.hpp:48-50 | `!=` holds exactly when the vectors differ |
| `IVector2.Dot` | includes/mathematics/ivector2.hpp:63-65 | `dot` is x·x' + y·y' reduced modulo 2^32, before the conversion to `float` |
| `IVector2.Cross` | includes/mathematics/ivector2.hpp:67-69 | `cross` is (y, -x), with the negation wrapping |
| `IVector2.AddThenSub` | includes/mathematics/ivector2.hpp:19-25 | (a + b) - b == a for all vectors, overflow included |
| `IVector2.AddCommutes` | includes/mathematics/ivector2.hpp:19-21 | a + b == b + a |
| `IVector2.ScalarIsBroadcast` | includes/mathematics/ivector2.hpp:27-41 | multiplying or dividing by a scalar is the component-wise operation with the scalar in both components, from either side |
| `IVector2.CrossFourTimes` | includes/mathematics/ivector2.hpp:67-69 | `cross` twice negates both components, and four times gives the vector back |
| `IVector2.CrossPerpendicular` | includes/mathematics/ivector2.hpp:63-69 | every vector's `dot` with its `cross` is 0 |
| `IVector2.Encode` | includes/mathematics/ivector2.hpp:72-74 | a vector takes 8 bytes |
| `IVector2.Serialize` | includes/mathematics/ivector2.hpp:72-74 | `serialize` appends x then y as `int`s and keeps the read cursor |
| `IVector2.Deserialize` | includes/mathematics/ivector2.hpp:76-78 | with fewer than 4 bytes nothing changes; with 4 to 7, x is decoded and consumed and y is kept before the throw; it succeeds exactly with 8 or more, decoding and consuming both |
| `IVector2.DeserializeSerialized` | includes/mathematics/ivector2.hpp:72-78 | a serialised vector deserialises into any vector as itself, leaving the rest |
| `IVector3.FromIVector2` | includes/mathematics/ivector3.hpp:17 | the conversion constructor keeps x and y and takes the given z |
| `IVector3.ToIVector2` | includes/mathematics/ivector3.hpp:77-79 | `toIVector2` keeps x and y |
| `IVector3.Add` | includes/mathematics/ivector3.hpp:20-22 | `+` adds the components modulo 2^32 |
| `IVector3.Sub` | includes/mathematics/ivector3.hpp:24-26 | `-` subtracts the components modulo 2^32 |
| `IVector3.Mul` | includes/mathematics/ivector3.hpp:28-30 | `*` multiplies the components modulo 2^32 |
| `IVector3.Div` | includes/mathematics/ivector3.hpp:32-34 | `/` divides the components with truncation |
| `IVector3.Scale` | includes/mathematics/ivector3.hpp:36-38 | `* scalar` multiplies the components by the scalar modulo 2^32 |
| `IVector3.ScaleLeft` | includes/mathematics/ivector3.hpp:97-100 | each coordinate of `scalar * vec` is `scalar` times the coordinate, wrapped to `int`; it is the same vector as `vec * scalar` |
| `IVector3.DivScalar` | includes/mathematics/ivector3.hpp:40-42 | `/ scalar` divides the components with truncation |
| `IVector3.Eq` | includes/mathematics/ivector3.hpp:45-47 | `==` holds exactly when all components are equal |
| `IVector3.Ne` | includes/mathematics/ivector3.hpp:49-51 | `!=` holds exactly when the vectors differ |
| `IVector3.Dot` | includes/mathematics/ivector3.hpp:64-66 | `dot` is the sum of the three products reduced modulo 2^32 |
| `IVector3.DotSteps` | includes/mathematics/ivector3.hpp:65 | wrapping each product and each partial sum gives the wrapped exact sum |
| `IVector3.Cross` | includes/mathematics/ivector3.hpp:68-74 | `cross` is the textbook cross product modulo 2^32 |
| `IVector3.AddThenSub` | includes/mathematics/ivector3.hpp:20-26 | (a + b) - b == a for all vectors, overflow included |
| `IVector3.ScalarIsBroadcast` | includes/mathematics/ivector3.hpp:28-42 | scalar operations are the component-wise ones with the scalar broadcast, from either side |
| `IVector3.CrossPerpendicular` | includes/mathematics/ivector3.hpp:64-74 | a vector's `dot` with its `cross` with any vector is 0, overflow included |
| `IVector3.CrossSelf` | includes/mathematics/ivector3.hpp:68-74 | a vector's `cross` with itself is the zero vector |
| `IVector3.ConversionsInverse` | includes/mathematics/ivector3.hpp:17-79 | converting to 2D and back with the same z, or from 2D and back, gives the vector back |
| `IVector3.Encode` | includes/mathematics/ivector3.hpp:82-84 | a vector takes 12 bytes |
| `IVector3.Serialize` | includes/mathematics/ivector3.hpp:82-84 | `serialize` appends x, y and z as `int`s |
| `IVector3.Deserialize` | includes/mathematics/ivector3.hpp:86-88 | with fewer than 4 bytes nothing changes; with 4 to 7, x is decoded and consumed; with 8 to 11, x and y are; z is kept whenever it fails; it succeeds exactly with 12 or more, decoding and consuming them |
| `IVector3.DeserializeSerialized` | includes/mathematics/ivector3.hpp:82-88 | a serialised vector deserialises into any vector as itself, leaving the rest |
| `CoordinateGenerator.Bits` | includes/mathematics/random_2D_coordinate_generator.hpp:25-32 | a `long long` is handled as its 64 bits |
| `CoordinateGenerator.Hash` | includes/mathematics/random_2D_coordinate_generator.hpp:25-32 | the mask keeps the hash in [0, 2^63) |
| `CoordinateGenerator.New` | includes/mathematics/random_2D_coordinate_generator.hpp:36-41 | a new generator has the given seed and no subscriber |
| `CoordinateGenerator.SetSeed` | includes/mathematics/random_2D_coordinate_generator.hpp:45-48 | `setSeed` replaces the seed, keeps pool and subscribers, and notifies SEED_CHANGED with the new seed |
| `CoordinateGenerator.SubscribeToGeneration` | includes/mathematics/random_2D_coordinate_generator.hpp:99-102 | subscribing appends the listener to that event only and changes nothing else |
| `CoordinateGenerator.Generate` | includes/mathematics/random_2D_coordinate_generator.hpp:51-55 | `operator()` returns the seed's hash of (x, y), which is never negative, and notifies VALUE_GENERATED with it |
| `CoordinateGenerator.HashAt` | includes/mathematics/random_2D_coordinate_generator.hpp:25-32 | the seed's value function agrees with the hash at every point |
| `CoordinateGenerator.ColumnStep` | includes/mathematics/random_2D_coordinate_generator.hpp:65-70 | one more inner iteration appends the value at the next y |
| `CoordinateGenerator.GridStep` | includes/mathematics/random_2D_coordinate_generator.hpp:64-71 | one more outer iteration appends the next column |
| `CoordinateGenerator.ColumnIndex` | includes/mathematics/random_2D_coordinate_generator.hpp:65-70 | a column of m has m values, the j-th at y + j |
| `CoordinateGenerator.GridLength` | includes/mathematics/random_2D_coordinate_generator.hpp:64-71 | a grid of n columns of m has n·m values |
| `CoordinateGenerator.Pos` | includes/mathematics/random_2D_coordinate_generator.hpp:68 | the result position of (i, j) is inside the grid |
| `CoordinateGenerator.RowBefore` | includes/mathematics/random_2D_coordinate_generator.hpp:68 | the x-major position i·cols + j is inside the grid |
| `CoordinateGenerator.GridEntry` | includes/mathematics/random_2D_coordinate_generator.hpp:64-71 | the value at x-major position (i, j) is the one at (start.x + i, start.y + j) |
| `CoordinateGenerator.GridIndex` | includes/mathematics/random_2D_coordinate_generator.hpp:64-71 | every grid position holds the value of its point |
| `CoordinateGenerator.BatchSize` | includes/mathematics/random_2D_coordinate_generator.hpp:58-75 | a batch has one value per point of the inclusive rectangle, and none when either range is empty |
| `CoordinateGenerator.ValueCallsSnoc` | includes/mathematics/random_2D_coordinate_generator.hpp:53 | generating one more value adds its notifications at the end |
| `CoordinateGenerator.ValueCallsAppend` | includes/mathematics/random_2D_coordinate_generator.hpp:53 | the notifications of two runs are those of the first, then those of the second |
| `CoordinateGenerator.RunColumn` | includes/mathematics/random_2D_coordinate_generator.hpp:65-70 | the inner loop yields the column's values and notifies each of them in order |
| `CoordinateGenerator.RunGrid` | includes/mathematics/random_2D_coordinate_generator.hpp:64-71 | the nested loops yield the grid x-major and notify each value in order |
| `CoordinateGenerator.RunBatch` | includes/mathematics/random_2D_coordinate_generator.hpp:61-74 | the batch loop yields the batch, notifies each value, then BATCH_COMPLETED with the count |
| `CoordinateGenerator.RunPooledColumn` | includes/mathematics/random_2D_coordinate_generator.hpp:85-91 | the pooled inner loop yields the same values and notifications; each acquired object is released, so the pool's flags come back unchanged |
| `CoordinateGenerator.RunPooledGrid` | includes/mathematics/random_2D_coordinate_generator.hpp:84-92 | the pooled nested loops yield the grid and leave the pool's flags unchanged |
| `CoordinateGenerator.RunPooledBatch` | includes/mathematics/random_2D_coordinate_generator.hpp:81-95 | the pooled batch yields the same values and notifications as the plain batch and leaves the pool's flags unchanged |
| `CoordinateGenerator.GenerateBatch` | includes/mathematics/random_2D_coordinate_generator.hpp:58-75 | `generateBatch` returns the seed's values over the rectangle, x-major, with one VALUE_GENERATED per value and then BATCH_COMPLETED with the count |
| `CoordinateGenerator.GenerateBatchWithPool` | includes/mathematics/random_2D_coordinate_generator.hpp:78-96 | `generateBatchWithPool` returns the same as `generateBatch` and leaves seed, subscribers and pool availability unchanged |
| `CoordinateGenerator.BatchEntry` | includes/mathematics/random_2D_coordinate_generator.hpp:58-75 | the batch entry at (i, j) is the value `operator()` gives at (start.x + i, start.y + j) |
| `CoordinateGenerator.SerializeState` | includes/mathematics/random_2D_coordinate_generator.hpp:105-107 | `serializeState` appends the seed as 8 bytes |
| `CoordinateGenerator.DeserializeState` | includes/mathematics/random_2D_coordinate_generator.hpp:109-111 | `deserializeState` throws, with nothing changed, exactly when fewer than 8 bytes are unread; otherwise it replaces only the seed with the decoded one |
| `CoordinateGenerator.StateRoundTrip` | includes/mathematics/random_2D_coordinate_generator.hpp:105-111 | restoring a serialised seed into any generator makes it generate the same values as the original |
| `PerlinNoise.InitialMachine` | includes/mathematics/perlin_noise_2D.hpp:79-111 | the machine the constructor builds is well formed, has the four states and six transitions, and starts in IDLE |
| `PerlinNoise.InitializeBuildsInitial` | includes/mathematics/perlin_noise_2D.hpp:79-111 | `initializeStateMachine` on a fresh machine succeeds, with no duplicate state or unknown endpoint, and yields that machine |
| `PerlinNoise.AddStatesBuild` | includes/mathematics/perlin_noise_2D.hpp:81-84 | adding the four states to a fresh machine makes IDLE, the first one added, current |
| `PerlinNoise.AddLastStates` | includes/mathematics/perlin_noise_2D.hpp:83-84 | adding INTERPOLATING and FINISHED after the first two succeeds and keeps IDLE current |
| `PerlinNoise.AddTransitionsBuild` | includes/mathematics/perlin_noise_2D.hpp:89-106 | the six `addTransition` calls succeed and register exactly the six pairs, each with its own callback |
| `PerlinNoise.MachineValid` | includes/mathematics/perlin_noise_2D.hpp:79-111 | a machine built this way, in any state, is well formed |
| `PerlinNoise.Doubled` | includes/mathematics/perlin_noise_2D.hpp:51 | entry 256 + i of the table repeats entry i |
| `PerlinNoise.PermutationOf` | includes/mathematics/perlin_noise_2D.hpp:47-53 | the table has 512 entries |
| `PerlinNoise.Permutation` | includes/mathematics/perlin_noise_2D.hpp:47-53 | the table a seed gives is doubled, with every entry in [0, 256) |
| `PerlinNoise.PermutationTable` | includes/mathematics/perlin_noise_2D.hpp:49-52 | since the generator never returns a negative value, `% 256` keeps every entry in [0, 256), and the second half repeats the first |
| `PerlinNoise.Resize` | includes/mathematics/perlin_noise_2D.hpp:48 | `resize(512)` keeps the old entries that fit and fills the rest with zeros |
| `PerlinNoise.InitializePermutation` | includes/mathematics/perlin_noise_2D.hpp:47-53 | whatever the old table held, the loop leaves the doubled table of the generator's values at (i, 0) |
| `PerlinNoise.Cell` | includes/mathematics/perlin_noise_2D.hpp:129-130 | `floor & 255` is the floor modulo 256, also for negative floors |
| `PerlinNoise.Lookup` | includes/mathematics/perlin_noise_2D.hpp:138-141 | every corner index stays inside the 512-entry table, and every corner hash is in [0, 256) |
| `PerlinNoise.NeighboursShareCornersY` | includes/mathematics/perlin_noise_2D.hpp:138-141 | the upper corners of a cell are the lower corners of the cell above |
| `PerlinNoise.NeighboursShareCornersX` | includes/mathematics/perlin_noise_2D.hpp:138-141 | the right corners of a cell are the left corners of the cell to its right |
| `PerlinNoise.CellSucc` | includes/mathematics/perlin_noise_2D.hpp:129-130 | the next floor's cell is the next cell modulo 256 |
| `PerlinNoise.LookupPeriodic` | includes/mathematics/perlin_noise_2D.hpp:129-141 | the corner hashes repeat every 256 cells along each axis |
| `PerlinNoise.New` | includes/mathematics/perlin_noise_2D.hpp:72-77 | a new noise is valid, in IDLE, with the seed's table and no gradient data |
| `PerlinNoise.GetCurrentState` | includes/mathematics/perlin_noise_2D.hpp:199-201 | `getCurrentState` is the machine's current state |
| `PerlinNoise.SetSeed` | includes/mathematics/perlin_noise_2D.hpp:204-207 | `setSeed` installs the seed and the table it gives, and keeps the machine and gradient data |
| `PerlinNoise.Reset` | includes/mathematics/perlin_noise_2D.hpp:210-214 | `reset` rebuilds the machine as the constructor does, back in IDLE, and changes nothing else |
| `PerlinNoise.Advance` | includes/mathematics/perlin_noise_2D.hpp:115-119 | the guarded step moves and runs that transition's callback exactly when the machine is in the source state and the transition exists; otherwise nothing happens |
| `PerlinNoise.TransitionFacts` | includes/mathematics/perlin_noise_2D.hpp:89-106 | the three transitions `sample` uses are registered with their callbacks, and IDLE to FINISHED is not |
| `PerlinNoise.SampleStepsFrom` | includes/mathematics/perlin_noise_2D.hpp:115-126 | the three guarded steps of `sample` end in IDLE unless the machine was in FINISHED, running the callbacks of the steps taken, in order |
| `PerlinNoise.Sample` | includes/mathematics/perlin_noise_2D.hpp:113-157 | `sample` reads the cell's four corner hashes, ends in IDLE (FINISHED stays FINISHED) and runs each state's callbacks in order; it changes nothing but the machine |
| `PerlinNoise.RowEntries` | includes/mathematics/perlin_noise_2D.hpp:177-184 | a row of m samples has m entries, sample j's corners at index j |
| `PerlinNoise.RowStep` | includes/mathematics/perlin_noise_2D.hpp:183 | one more sample appends its corners to the row |
| `PerlinNoise.AreaStep` | includes/mathematics/perlin_noise_2D.hpp:185 | one more row appends it to the map |
| `PerlinNoise.AreaEntries` | includes/mathematics/perlin_noise_2D.hpp:175-186 | a map of n rows has n entries, row i at index i |
| `PerlinNoise.SampleRow` | includes/mathematics/perlin_noise_2D.hpp:177-184 | the inner loop yields the row's samples; the machine ends settled when the row is not empty |
| `PerlinNoise.GenerateArea` | includes/mathematics/perlin_noise_2D.hpp:160-196 | `generateArea` returns (resolution.x + 1) rows of (resolution.y + 1) samples, none for a negative resolution; it ends in IDLE when anything was sampled, because IDLE to FINISHED is not registered, and stays in GENERATING_GRADIENTS when nothing was |
| `PerlinNoise.FinishArea` | includes/mathematics/perlin_noise_2D.hpp:189-193 | the final step of `generateArea` changes nothing, since FINISHED cannot be reached from IDLE |
| `PerlinNoise.RestingKept` | includes/mathematics/perlin_noise_2D.hpp:113-214 | every operation keeps the state in IDLE or GENERATING_GRADIENTS, so INTERPOLATING and FINISHED are never observed |
| `PerlinNoise.SaveToSnapshot` | includes/mathematics/perlin_noise_2D.hpp:28-31 | `_saveToSnapshot` appends the seed as 8 bytes, then the gradient data with its length |
| `PerlinNoise.LoadGradients` | includes/mathematics/perlin_noise_2D.hpp:38-43 | reading the gradient data succeeds exactly when a length and that many bytes are unread; on failure the noise is unchanged; on success the data is replaced by those bytes, the rest is left unread and the seed's table is rebuilt |
| `PerlinNoise.LoadFromSnapshot` | includes/mathematics/perlin_noise_2D.hpp:33-44 | `_loadFromSnapshot` throws with nothing changed when the seed is missing; otherwise the seed is installed even if the gradient data then fails; it succeeds exactly when the seed, a length and that many bytes are unread, and a success leaves a consistent table |
| `PerlinNoise.LoadedGradients` | includes/mathematics/perlin_noise_2D.hpp:33-44 | a successful load reads the seed, a length and that many bytes, and leaves the rest unread |
| `PerlinNoise.Save` | includes/mathematics/perlin_noise_2D.hpp:28-31 | a save holds exactly the seed and the length-prefixed gradient data |
| `PerlinNoise.Load` | includes/mathematics/perlin_noise_2D.hpp:33-44 | loading keeps the noise valid and its machine unchanged |
| `PerlinNoise.SaveThenLoad` | includes/mathematics/perlin_noise_2D.hpp:28-44 | loading a save into any noise succeeds and restores the seed, the table and the gradient data, keeping the receiver's machine |

## Left out

- Threads: mutexes, condition variables and the blocking waits of the queues are not modelled; each queue call is one atomic step. The persistent worker, worker pool and thread classes run background threads and are not part of this model.
- The operation log that the current queue keeps in a `DataBuffer` is not modelled. The queue's snapshot is modelled as the closed flag, an 8-byte count and the elements.
- ThreadSafeQueue.Load: its own contract only bounds the number of elements read; the round trip `ThreadSafeQueue.LoadSave` is what pins its result down.
- Networking: the server and client are sockets and threads. Their wire format is the `Message` framing, which is modelled.
- Console output (`threadSafeCout`, the thread-safe iostreams) is left out of the timer, application and widget code.
- Observer notifications of the observer and coordinate generator are recorded as traces of listener numbers; a listener's own effect is not modelled.
- Application.AddWidget / Application.RemoveWidget: the application holds `std::shared_ptr<Widget>`s and `removeWidget` compares each widget's name at removal time, so a widget renamed through another owner (say, by `Widget::load`) is matched by its new name; the model stores widget values copied when added, so a later rename elsewhere is not seen.
- Application events: `_appObserver` and `subscribeToAppEvent` are not modelled. The STARTED, PAUSED, RESUMED, STOPPED, WIDGET_ADDED and WIDGET_REMOVED notifications (with their message strings) that `initialize`, `run`, `pause`, `resume`, `shutdown`, `addWidget` and `removeWidget` send are not traced; only the state, flag and widget changes are.
- Floating point: `fade`, `lerp`, `grad` and the sample values of the Perlin generator, vector `length` and `normalize`, `save_double`/`load_double`, and the chronometer are not modelled.
- IVector2.Dot and IVector3.Dot return the `int` sum before its conversion to `float`.
- PerlinNoise.Sample and PerlinNoise.GenerateArea take the integer floors of the coordinates as arguments, since the coordinates are floats; `sample` is modelled as the four corner hashes it reads, not the value it blends from them.
- PerlinNoise.GenerateArea does not record the callback trace of the samples it takes; only the final state is stated.
- The `.tpp` template implementations (data buffer, message, pool, state machine, observer, singleton, memento, thread-safe queue) are not part of this model. Those components are modelled from the contracts documented in their headers.
- DataBuffer.ReadString: for an announced length beyond `std::string::max_size`, `resize` throws `std::length_error` (or `std::bad_alloc` when memory runs out) before the content is checked; the model reports the buffer's own out-of-bounds error there, and DataBuffer.ReadStringInto still resizes the target.
- SlotPool.Deref: dereferencing a released or moved-from handle calls `getObjectAt` through a null `_pool` (include/pool.hpp:50-55), which is undefined behaviour in the source, not an exception; the model reports it as the distinct error `NullHandle`.
- ObjectPool.Acquire picks the lowest available index. The documentation does not say which free object is handed out.
- Placement new, aligned storage and explicit destructor calls in the pools are modelled as abstract slots; "destroying" an `Object` is its release.
- The `ostringstream`/`istringstream` conversion of the framed buffer is not modelled: a record is its framed text bytes.
- Signed overflow, which C++ leaves undefined, is modelled as two's-complement wrap-around modulo 2^32 for `int` and modulo 2^64 for `long long`. That includes `INT_MIN / -1`, which wraps back to `INT_MIN`.
- The coordinate hash is modelled on unbounded integers reduced modulo 2^64 after each shift and multiplication, which is the same arithmetic as 64-bit bit-vectors. The shift of a negative value is taken on its two's-complement bits.
- CoordinateGenerator.GenerateBatch and CoordinateGenerator.GenerateBatchWithPool require `CountersFit`: a loop that runs must end below `INT64_MAX`, because the source's `++x`/`++y` would overflow there; RunGrid and the other inner loops carry the matching bound on their counters. PerlinNoise.GenerateArea likewise requires a resolution below `INT_MAX` on each axis whose loop runs.
- Application never leaves INITIALIZING, because the constructor registers no transition. Its `run` and `pause` guards are modelled, but the later states cannot be reached.
- Clocks: the timer takes `now` in milliseconds as an argument.
- Mathematics singleton, observable value, aggregator headers and the declaration-only headers add no behaviour of their own and are not part of this model.
- Test and example programs are used only as evidence for properties; a few of their scenarios are restated as concrete lemmas.

## Findings

| source | as written | input that shows it | evidently intended | confidence | as-written member | corrected member |
|---|---|---|---|---|---|---|
| old/include/data_buffer.hpp:51 | `_readPos + len > _buffer.size()` is computed in 64 bits and can wrap, so a huge length passes the check; the end pointer of `assign` wraps too and lands before the start, a reversed range that is undefined behaviour (libstdc++ throws `std::length_error`); nothing past the data is read | the eight bytes `FF FF FF FF FF FF FF FF` with nothing after them: the length is 2^64 - 1 and `8 + len` wraps to 7 | throw "not enough data" whenever fewer than `len` bytes are unread | not executed | `OldDataBuffer.ReadStringAsWrittenWraps` | `OldDataBuffer.ReadString` |
| old/src/message.cpp:39 | `pos + payload_size` is a `size_t` sum and can wrap, so a header announcing 2^64 - 1 payload bytes passes the size check; the end iterator of `insert` wraps too and lands before the start, a reversed range that is undefined behaviour (libstdc++ throws `std::length_error`); nothing past the input is read | a 12-byte header with size 2^64 - 1: `12 + size` wraps to 11, below the input length 12 | throw "Invalid raw message" whenever fewer payload bytes follow than the header announces | not executed | `OldMessage.DeserializeAsWrittenWraps` | `OldMessage.Deserialize` |
| src/bonus/timer.cpp:29-35 | `resume` restarts the start time at `now`, and the running time left is then measured against the whole `_duration`; the time left that `pause` saved is ignored | a 3000 ms timer started at 0, paused at 1000 and resumed at 2000 reports 2500 ms left at 2500 | continue from the time left at the pause: 1500 ms left at 2500 | not executed | `Timer.ResumeAsWrittenForgetsPause` | `Timer.ResumeContinues` |
| src/network/message.cpp:70 | `readPos + size > buffer.size()` is a `size_t` sum and can wrap (the `const` overload at line 82 has the same check), so a huge announced size passes it and `data.assign` throws `std::length_error` instead of the message's exception | a payload of eight 0xFF bytes read from position 0: the size is 2^64 - 1 and `8 + size` wraps to 7, below the payload's 8 bytes | throw "Not enough data to read string" whenever fewer bytes than announced follow | not executed | `Message.ReadStringAsWrittenWraps` | `Message.ReadString` |
