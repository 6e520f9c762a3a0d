# A verified model of an ATM configuration-manager simulator and its Rust companions

The main component is the NPF ATM configuration-manager simulator under `fapi/`.
A client registers a callback function with the **CallBackManager**, which hands out
small integer handles with a capacity of `_ATM_FAPI_SIM_CB_HANDLE_MAX` (10).
The client then submits batches of interface, VC and cross-connect (XC) records
through the **configuration-manager facade**. The facade:

- checks the handle and the array;
- lets the **TableManager** apply the batch to its three maps (interfaces, VCs,
  cross-connects), one entry at a time, writing one response per entry or per
  failed entry;
- applies the client's error-reporting policy (report all, none, or only
  errors);
- hands the response batch to the **CallBackHandler**. The handler copies the
  registered callback, attaches the correlator and the data, and either fires
  it at once or queues it for the event scheduler with argument 1, the scheduler's
  priority.

Beside it, the model covers the small Rust programs of the same repository:

- the `mydns` header and question parsers (RFC 1035, sections 3.1, 4.1.1 and 4.1.2);
- the `devmem` library and its command-line number and width parsers;
- the `mytar` header reader;
- the `cfgparse` PSP configuration reader;
- the `rust-flags` newtype;
- the `bitfields` PSP header;
- the `psp-packet` view;
- the `splitter` line processor.

Two support modules model the Rust standard-library functions these programs
rely on. `IntParse` models `from_str_radix` and `str::parse`. `Text` models
`trim`, `split`, `join` and `split_once`.

Layout, one module per file:

- `wrappers`: Option and Result;
- `atm_types`: the NPF records and error codes;
- `atm_table`: TableManager;
- `callback`: a stored CallBack entry;
- `callback_registry`: CallBackManager;
- `callback_dispatch`: CallBackHandler;
- `atm_config_mgr`: the six `NPF_F_ATM_ConfigMgr_*` entry points;
- `bytes`, `int_parse` and `text`: support;
- `dns`, `devmem`, `devmem_cli`, `tar`, `cfgparse`, `rust_flags`, `psp_bitfields`, `psp_packet` and `splitter`: one per Rust program.

Where the code updates state in place, the model follows it:

- TableManager, CallBackManager, CallBackHandler and the rust-flags `Flags` are
  classes whose methods reassign their fields.
- Each method is proved equal to a specification function of the old state.
- The lemmas state what those functions promise: one response per entry,
  which code each entry gets, what the tables hold afterwards, and the
  referential-integrity invariant `TableValid`, which every batch operation keeps.

Where this model follows the code rather than the component's documentation:

- **Full callback table.** `RegisterCallBack` on a full table returns
  `NPF_E_UNKNOWN` (fapi/CallBackManager.cpp:115-119), not a dedicated
  "too many callbacks" code.
- **XC key.** A cross-connect is stored under `link_B[0].vcXcId`
  (fapi/TableManager.cpp:436-456). The header comment at fapi/TableManager.h:134
  says the key is link A's VC id.
- **Failure records.** `AddATMVC` and `AddATMXC` write a response only for a failed
  entry (fapi/TableManager.cpp:304-311 and 341-456), not one per entry. Only
  `AddATMIf` and `DeleteIf` respond once per entry.
- **Existing cross-connect id.** `AddATMXC` also rejects an entry whose
  cross-connect id is already stored, with RESOURCE_EXISTS
  (fapi/TableManager.cpp:436-456).
- **Unregistered handle.** `AsyncCallback` dereferences the looked-up entry
  without a null check; the check is commented out (fapi/CallBackHandler.cpp:88-92).
  So delivery to a handle that is not registered is not a silent no-op, and the
  model requires a registered handle.
- **Handle reuse.** `DeRegisterCallBack` decrements the handle counter, so a
  later registration can be handed a live handle without being stored
  (`CallbackRegistry.HandleReuse`). The model reproduces this as written.

## Model

| member | source | states |
|---|---|---|
| AtmTable.AddIfsLength | fapi/TableManager.cpp:96-131 | AddATMIf writes exactly one response per input entry |
| AtmTable.AddIfsEntry | fapi/TableManager.cpp:101-130 | response i names entry i's ifID; INVALID_ATTRIBUTE iff the type is not UNI/NNI, RESOURCE_EXISTS iff well-typed and already present (counting entries before it), NO_ERROR iff well-typed and new |
| AtmTable.AddIfsTable | fapi/TableManager.cpp:110-130 | no stored interface is overwritten; the new key set is the old one plus the ids of the well-typed entries; each added interface is an input entry stored under its own id |
| AtmTable.DeleteIfsEntry | fapi/TableManager.cpp:156-216 | response i names id i; CONT_OBJS_EXIST iff some VC is on that interface, else NO_ERROR iff the interface is still present, else RESOURCE_NONEXISTENT |
| AtmTable.DeleteIfsLength | fapi/TableManager.cpp:156-160 | DeleteIf writes exactly one response per id |
| AtmTable.DeleteIfsTable | fapi/TableManager.cpp:198-216 | afterwards an interface is present iff it was present and it is not a listed id free of VCs; surviving interfaces are unchanged |
| AtmTable.VcSetStepFacts | fapi/TableManager.cpp:249-311 | one AddATMVC entry is stored under its vcLinkId, with no record, iff its interface exists, its (ifId, vpi, vci) is free and its vcLinkId is unused; otherwise the table is unchanged and the record is E_UNKNOWN iff the interface is missing, INVALID_VC_ADDRESS otherwise |
| AtmTable.AddVcsCount | fapi/TableManager.cpp:249-311 | records plus VCs = old VCs plus entries: each entry adds a VC or a record, never both |
| AtmTable.AddVcsKeeps | fapi/TableManager.cpp:286-302 | AddATMVC never changes or removes a stored VC |
| AtmTable.AddVcsNew | fapi/TableManager.cpp:249-302 | each VC AddATMVC adds is an input entry, on an existing interface, stored under its own vcLinkId |
| AtmTable.AddVcsRecords | fapi/TableManager.cpp:304-311 | every record names the vcLinkId of an input entry, with E_UNKNOWN or INVALID_VC_ADDRESS |
| AtmTable.AddVcsRecordsPrefix | fapi/TableManager.cpp:304-311 | the records of the first j entries are a prefix of the records of all of them: records are only appended, in entry order |
| AtmTable.AddVcsEntry | fapi/TableManager.cpp:249-311 | entry i is stored iff it passes the three checks against the table left by entries 0..i-1; otherwise the table is unchanged and exactly one record, naming its vcLinkId with E_UNKNOWN (missing interface) or INVALID_VC_ADDRESS, is appended after the records of the earlier entries |
| AtmTable.AddVcsOutcome | fapi/TableManager.cpp:233-322 | the AddATMVC facts together: counts, old VCs kept, new VCs from the inputs, records about inputs, and for every entry in order its AddVcsEntry outcome |
| AtmTable.XcSetStepOutcome | fapi/TableManager.cpp:341-479 | an XC entry fails iff its type is invalid, A equals B, either VC is missing or already linked, or the XC id exists; a failure changes nothing and is INVALID_ATTRIBUTE, naming VC A (bad type, A equals B, A missing or linked) or else VC B (B missing or linked), or RESOURCE_EXISTS naming the stored XC's id exactly when both VCs are valid and the id exists; success stores the entry under link_B[0].vcXcId and attaches A and B to each other (EXT_TO_EXT, numLink_B 1), leaving every other VC unchanged |
| AtmTable.EmptyTableValid | fapi/TableManager.cpp:57-59 | the freshly constructed empty tables satisfy the referential-integrity invariant |
| AtmTable.AddIfsValid | fapi/TableManager.cpp:88-142 | AddATMIf keeps the invariant: keys equal ids, every VC on an existing interface, VC addresses unique, XCs symmetric |
| AtmTable.DeleteIfsValid | fapi/TableManager.cpp:147-228 | DeleteIf keeps the invariant: it never removes an interface that a VC refers to |
| AtmTable.AddVcsValid | fapi/TableManager.cpp:233-322 | AddATMVC keeps the invariant: no two VCs share (ifId, vpi, vci) and every VC is on an existing interface |
| AtmTable.XcSetStepValid | fapi/TableManager.cpp:436-479 | one AddATMXC entry keeps the invariant |
| AtmTable.AddXcsValid | fapi/TableManager.cpp:327-493 | AddATMXC keeps the invariant over a whole batch |
| AtmTable.XcSymmetric | fapi/TableManager.cpp:459-479 | under the invariant each XC's two VCs point at each other under the XC's id, and two distinct XCs share no VC |
| AtmTable.AllNoErrorSnoc | fapi/TableManager.cpp:133-141 | the all-OK flag of a batch is false exactly when some response carries an error |
| AtmTable.TableManager.constructor | fapi/TableManager.cpp:57-59 | the three tables start empty and valid |
| AtmTable.TableManager.AddATMIf | fapi/TableManager.cpp:88-142 | the interface table and responses are those of the entry-by-entry specification; the VC and XC tables are unchanged; the result and allOK are true iff every response is NO_ERROR |
| AtmTable.TableManager.ScanForSubObjects | fapi/TableManager.cpp:163-177 | true iff some stored VC is on the interface |
| AtmTable.TableManager.DeleteIf | fapi/TableManager.cpp:147-228 | the interface table and responses are those of the specification; VCs and XCs are unchanged; the result is true iff every response is NO_ERROR |
| AtmTable.TableManager.ScanForAddress | fapi/TableManager.cpp:263-284 | true iff some stored VC has the entry's (ifId, vpi, vci) |
| AtmTable.TableManager.AddATMVC | fapi/TableManager.cpp:233-322 | the VC table and failure records are those of the specification; interfaces and XCs are unchanged; the result is true iff there is no record |
| AtmTable.TableManager.AddATMXC | fapi/TableManager.cpp:327-493 | the VC and XC tables and failure records are those of the specification; interfaces are unchanged; the result is true iff there is no record |
| Callback.NewCallBack | fapi/CallBack.cpp:56-60 | a new entry keeps the client's context and function, with correlator 0 and no data |
| Callback.WithResponse | fapi/CallBackHandler.cpp:95-102 | the copy keeps context and function and carries the request's correlator and data |
| Callback.Fire | fapi/CallBack.cpp:69-77 | firing calls the stored function with exactly the stored context, correlator and data |
| CallbackDispatch.AfterAsyncCallback | fapi/CallBackHandler.cpp:79-114 | one delivery per call: in scheduled mode one event with priority 1 is appended and nothing is invoked; in immediate mode one invocation is appended and nothing is scheduled; either carries the registered function and context with this correlator and data; earlier history is kept |
| CallbackDispatch.DeferredDelivery | fapi/CallBackHandler.cpp:95-109 | in scheduled mode nothing is invoked and exactly one event is queued, with priority 1, the registered function and context, and this request's correlator and data |
| CallbackDispatch.ImmediateDelivery | fapi/CallBackHandler.cpp:95-112 | in immediate mode the client's registered function is invoked with its registered context and this request's correlator and data |
| CallbackDispatch.CallBackHandler.constructor | fapi/CallBackHandler.cpp:58-61 | the handler starts in immediate mode with no history |
| CallbackDispatch.CallBackHandler.SetCallbackModeAsync | fapi/CallBackHandler.cpp:116-120 | switches to scheduled delivery and changes nothing else |
| CallbackDispatch.CallBackHandler.AsyncCallback | fapi/CallBackHandler.cpp:79-114 | the handler's new state is the delivery specification applied to the registered entry |
| CallbackRegistry.Register | fapi/CallBackManager.cpp:81-131 | RESOURCE_EXISTS iff the pair is registered, returning its handle and changing nothing; E_UNKNOWN iff new and the table is full, changing nothing; otherwise NO_ERROR with the counter as handle, the counter incremented, the key set grown by that handle and old entries unchanged |
| CallbackRegistry.Deregister | fapi/CallBackManager.cpp:133-160 | NO_ERROR iff the handle is within range and registered, then that entry is erased and the counter decremented; otherwise BAD_CALLBACK_HANDLE with no change |
| CallbackRegistry.RegisterValid | fapi/CallBackManager.cpp:81-131 | registering keeps the registry invariant: at most 10 entries, counter above the entry count, each pair under one handle |
| CallbackRegistry.RegisterFound | fapi/CallBackManager.cpp:92-103 | a registered pair is reported under the handle that holds it |
| CallbackRegistry.RegisterNew | fapi/CallBackManager.cpp:105-131 | an unregistered pair gets E_UNKNOWN on a full table, else is inserted under the counter unless that key is live |
| CallbackRegistry.DeregisterValid | fapi/CallBackManager.cpp:133-160 | deregistering keeps the registry invariant |
| CallbackRegistry.RegisterTwice | fapi/CallBackManager.cpp:92-103 | registering the same pair again returns the same handle with RESOURCE_EXISTS and changes nothing |
| CallbackRegistry.HandleReuse | fapi/CallBackManager.cpp:121-128 | after register, register, deregister(1), a third registration returns live handle 2 with NO_ERROR, handle 2 still holds the second client and the third is not stored |
| CallbackRegistry.CallBackManager.constructor | fapi/CallBackManager.cpp:57-60 | counter 1, empty table, invariant holds |
| CallbackRegistry.CallBackManager.RegisterCallBack | fapi/CallBackManager.cpp:81-131 | the new state, code and handle are those of Register, and the invariant is kept |
| CallbackRegistry.CallBackManager.DeRegisterCallBack | fapi/CallBackManager.cpp:133-160 | the new state and code are those of Deregister, and the invariant is kept |
| CallbackRegistry.CallBackManager.RetrieveCallback | fapi/CallBackManager.cpp:164-177 | returns the stored entry iff the handle is in the table (null otherwise) |
| AtmConfigMgr.ReportingResult | fapi/NPF_F_ATM_CONFIGURATION_MANAGER.c:189-196 | NO_ERROR iff the reporting value is one of the three policies, otherwise E_UNKNOWN |
| AtmConfigMgr.ReportingPolicy | fapi/NPF_F_ATM_CONFIGURATION_MANAGER.c:166-187 | REPORT_NONE and unknown values never deliver; REPORT_ERRORS delivers nothing for an all-OK batch and exactly one delivery otherwise; REPORT_ALL delivers exactly once |
| AtmConfigMgr.Report | fapi/NPF_F_ATM_CONFIGURATION_MANAGER.c:166-196 | the handler state is the policy applied to the batch, and the returned code is that of the policy value |
| AtmConfigMgr.Register | fapi/NPF_F_ATM_CONFIGURATION_MANAGER.c:66-91 | null function gives BAD_CALLBACK_FUNCTION, then null handle pointer gives E_UNKNOWN, both with no change; otherwise the registry's result, keeping its invariant |
| AtmConfigMgr.Deregister | fapi/NPF_F_ATM_CONFIGURATION_MANAGER.c:109-119 | the registry's deregistration result, keeping its invariant |
| AtmConfigMgr.IfSet | fapi/NPF_F_ATM_CONFIGURATION_MANAGER.c:131-197 | a bad handle gives BAD_CALLBACK_HANDLE and an empty or null array gives E_UNKNOWN, neither changing anything; otherwise the interfaces are updated per AddATMIf with one response per entry, the batch is reported per the policy, and the table invariant is kept |
| AtmConfigMgr.IfDelete | fapi/NPF_F_ATM_CONFIGURATION_MANAGER.c:243-316 | as IfSet, plus FEATURE_NOT_SUPP without change when contained objects are to be deleted; otherwise interfaces are deleted per DeleteIf |
| AtmConfigMgr.VcSet | fapi/NPF_F_ATM_CONFIGURATION_MANAGER.c:328-396 | the handle and array checks, then the VC table per AddATMVC, the policy applied to the failure records, and the invariant kept |
| AtmConfigMgr.VcLinkXcSet | fapi/NPF_F_ATM_CONFIGURATION_MANAGER.c:408-474 | the handle and array checks, then the VC and XC tables per AddATMXC, the policy applied to the failure records, and the invariant kept |
| Dns.EncodeHeader | rust/mydns/src/main.rs:36 | a header's wire form is exactly size_of::<DnsHeader>() = 12 bytes |
| Dns.DecodeHeader | rust/mydns/src/main.rs:34-48 | InvalidHeader iff fewer than 12 bytes; on success the size is 12 and every field is a u16 |
| Dns.ParseHeader | rust/mydns/src/main.rs:34-48 | the cursor-based parser computes DecodeHeader |
| Dns.BE16OfEncoding | rust/mydns/src/main.rs:87-89 | two big-endian bytes of a u16 read back as the value |
| Dns.HeaderRoundTrip | rust/mydns/src/main.rs:40-47 | parsing an encoded header, whatever follows, gives the header and size 12 |
| Dns.HeaderTestVector | rust/mydns/src/main.rs:168-189 | the test header (40500, 288, 1, 0, 0, 1) parses back with size equal to the buffer length |
| Dns.Utf8SeqLen | rust/mydns/src/main.rs:82 | the length of a well-formed UTF-8 sequence is at most 4 and within the input |
| Dns.AsciiIsUtf8 | rust/mydns/src/main.rs:82 | ASCII labels pass String::from_utf8 |
| Dns.Labels | rust/mydns/src/main.rs:76-84 | a decoded name ends strictly after its start and within the buffer |
| Dns.DecodeQuestion | rust/mydns/src/main.rs:69-93 | the size is the end of the name plus 4 and lies within the buffer |
| Dns.LabelsLoopStep | rust/mydns/src/main.rs:77-83 | one loop turn moves one label from those still to read to those read, without changing the name's end |
| Dns.LabelsLoopEnd | rust/mydns/src/main.rs:77-81 | a zero length octet ends the name just after it |
| Dns.ParseQuestion | rust/mydns/src/main.rs:69-93 | the label loop and the two reads compute DecodeQuestion |
| Dns.EncodeName | rust/mydns/src/main.rs:71-73 | a name's encoding has length one octet per label plus the labels plus the zero octet |
| Dns.QuestionParts | rust/mydns/src/main.rs:85-90 | an encoded question is the encoded name followed by qtype and qclass as big-endian u16s, where the parser reads them |
| Dns.LabelsOfEncoding | rust/mydns/src/main.rs:76-84 | decoding the encoding of labels, whatever follows, gives back the labels and the encoded length |
| Dns.QuestionRoundTrip | rust/mydns/src/main.rs:69-93 | an encoded question with UTF-8 labels is well formed and parses to the labels joined by ".", qtype, qclass, and the name's length plus 4 |
| Dns.WellFormedOfLabels | rust/mydns/src/main.rs:76-90 | a name of UTF-8 labels followed by at least 4 bytes does not panic the parser |
| Dns.QuestionTestVector | rust/mydns/src/main.rs:192-199 | "\x03www\x06google\x03com\x00\x12\x34\x56\x78" parses to www.google.com, 0x1234, 0x5678, size 20 |
| Bytes.BigEndianOfToBigEndian | rust/mydns/src/main.rs:40-45 | an n-byte big-endian encoding reads back as the value |
| Bytes.ToBigEndianOfBigEndian | rust/psp-packet/src/packet/psp.rs:16-17 | encoding a read value at the same width gives the bytes back |
| Bytes.BigEndianAppend | rust/psp-packet/src/packet/psp.rs:17 | a concatenation reads as the first part shifted by the second's width plus the second |
| Bytes.BE16 | rust/mydns/src/main.rs:87 | a u16 from the high byte then the low byte |
| IntParse.DigitValue | rust/devmem/src/main.rs:22 | a digit's value is below the radix |
| IntParse.DigitChar | rust/cfgparse/src/main.rs:64 | the printed digit reads back as its value in every radix large enough |
| IntParse.AccumulateValue | rust/devmem/src/main.rs:22-24 | the checked digit loop yields the positional value, or overflows exactly when that value reaches the limit |
| IntParse.AccumulateRejects | rust/devmem/src/main.rs:22-24 | a string with a non-digit never parses |
| IntParse.FromStrRadixSpec | rust/devmem/src/main.rs:20-27 | from_str_radix succeeds iff what follows an optional leading '+' is a non-empty string of digits of the radix whose value is below 2^bits, and then returns that value; the empty string gives Empty |
| IntParse.FromStrRadixOfDigits | rust/devmem/src/main.rs:20-27 | a zero-padded rendering of a value that fits reads back as the value |
| IntParse.Digits | rust/cfgparse/src/main.rs:64 | an n-digit rendering has n digits of the radix |
| Text.TrimStart | rust/cfgparse/src/main.rs:73 | the suffix after the leading whitespace, which starts with a non-whitespace character |
| Text.TrimEnd | rust/cfgparse/src/main.rs:73 | the prefix before the trailing whitespace, which ends with a non-whitespace character |
| Text.Trim | rust/splitter/src/lib.rs:8 | the result has no whitespace at either end and is no longer than the input |
| Text.TrimKeeps | rust/splitter/src/lib.rs:8 | trimming keeps every non-whitespace character (both directions) |
| Text.TrimOfTrimmed | rust/splitter/src/lib.rs:9 | trim is the identity on a string already trimmed |
| Text.Split | rust/cfgparse/src/main.rs:72 | at least one piece, none containing the separator |
| Text.JoinSplit | rust/cfgparse/src/main.rs:72 | joining the pieces of a split with the separator restores the string |
| Text.SplitJoin | rust/cfgparse/src/main.rs:51 | splitting a join of separator-free pieces gives the pieces back |
| Text.Remove | rust/cfgparse/src/main.rs:51 | the result contains no separator |
| Text.ConcatSplit | rust/cfgparse/src/main.rs:51 | collecting the pieces of a split removes exactly the separators |
| Text.SplitOnce | rust/splitter/src/lib.rs:8 | Some iff the separator occurs; the text is then the part before, the separator, and the rest, with no separator before it |
| DevMem.Size | rust/devmem/src/lib.rs:32-34 | the size of a width is 1, 2, 4 or 8 |
| DevMem.FromSize | rust/devmem/src/lib.rs:36-44 | Ok iff the size is 1, 2, 4 or 8, then a width of that size; otherwise InvalidSize(size) |
| DevMem.FromSizeOfSize | rust/devmem/src/lib.rs:155-170 | from_size inverts size on every width |
| DevMem.SizeInjective | rust/devmem/src/lib.rs:24-29 | distinct widths have distinct sizes |
| DevMem.CheckAlignment | rust/devmem/src/lib.rs:62-68 | Ok iff the address is a multiple of the size; the error carries the address and the size |
| DevMem.LowMask | rust/devmem/src/lib.rs:74 | address & (page_size - 1) is address mod page_size for a power-of-two page size |
| DevMem.PageMapping | rust/devmem/src/lib.rs:71-76 | fails iff the alignment check fails, with its error |
| DevMem.PageMappingSound | rust/devmem/src/lib.rs:73-76 | the offset lies inside the page, the base is page-aligned, base plus offset is the address, and the map covers offset plus size |
| DevMem.Load | rust/devmem/src/lib.rs:94-99 | a load of n bytes is below 256^n |
| DevMem.Store | rust/devmem/src/lib.rs:131-136 | a store changes no byte outside the n accessed bytes |
| DevMem.LoadStore | rust/devmem/src/lib.rs:131-136 | loading what was stored gives the value truncated to n bytes |
| DevMem.Read | rust/devmem/src/lib.rs:70-105 | AlignmentError iff misaligned; otherwise a value below 256^size |
| DevMem.Write | rust/devmem/src/lib.rs:107-142 | AlignmentError iff misaligned |
| DevMem.WriteStores | rust/devmem/src/lib.rs:107-142 | an aligned write stores the value's low bytes at the address itself |
| DevMem.ReadLoads | rust/devmem/src/lib.rs:70-105 | an aligned read loads from the address itself |
| DevMem.MappedAt | rust/devmem/src/lib.rs:73-76 | an aligned address is mapped back to itself |
| DevMem.ReadAfterWrite | rust/devmem/src/lib.rs:107-142 | after a successful write a read returns the value truncated to the width (the `as u8/u16/u32` casts), and no other byte changed |
| DevMem.ReadModifyWrite | rust/devmem/src/lib.rs:144-148 | fails iff misaligned; otherwise returns the value read before and the memory after the write |
| DevMemCli.ParseNumber | rust/devmem/src/main.rs:20-27 | a result fits in u64; an error is the hex message iff the text has a 0x/0X prefix |
| DevMemCli.MapErr | rust/devmem/src/main.rs:22-25 | errors are wrapped in the right message and values pass through |
| DevMemCli.ParseNumberSpec | rust/devmem/src/main.rs:20-27 | accepted iff after the prefix an optional '+' and non-empty digits of the radix with a u64 value, and that value is returned; "" and "0x" are Empty errors |
| DevMemCli.ParseHexRoundTrip | rust/devmem/src/main.rs:21-22 | "0x" plus the hex digits of a u64 parses back to it |
| DevMemCli.ParseDecimalRoundTrip | rust/devmem/src/main.rs:24-25 | the decimal digits of a u64 parse back to it |
| DevMemCli.ParseWidth | rust/devmem/src/main.rs:29-40 | an error iff the argument is given and not one of b/B/h/H/w/W/q/Q, carrying that text; no argument gives Long |
| DevMemCli.ParseWidthSurjective | rust/devmem/src/main.rs:30-34 | every width is reachable from its lower-case and its upper-case letter |
| DevMemCli.WidthName | rust/devmem/src/main.rs:148-155 | every width has a non-empty name |
| DevMemCli.WidthNameInjective | rust/devmem/src/main.rs:148-155 | distinct widths print distinct names |
| Tar.Latin1 | rust/mytar/src/main.rs:87 | one character per byte, with the byte's code |
| Tar.OctalField | rust/mytar/src/main.rs:85-93 | Some iff the field parses as an octal integer of the given width, and then that value, which fits the width |
| Tar.UntilNul | rust/mytar/src/main.rs:97-100 | a NUL-free prefix of the field: the bytes before the first NUL, or the whole field when it has none |
| Tar.UntilNulPadded | rust/mytar/src/main.rs:97-100 | a NUL-free name zero-padded to the field width reads back as the name, also when it fills all 100 bytes |
| Tar.DecodeFields | rust/mytar/src/main.rs:95-114 | a block shorter than the 257 bytes read is rejected |
| Tar.GetFileHeader | rust/mytar/src/main.rs:95-114 | filling the header field by field computes the as-written decoding |
| Tar.EncodeHeader | rust/mytar/src/main.rs:97-112 | a header block is 512 bytes |
| Tar.OctalRoundTrip | rust/mytar/src/main.rs:85-88 | an n-digit octal field reads back as its value |
| Tar.IntendedRoundTrip | rust/mytar/src/main.rs:95-114 | reading bytes 136..147 for the modification time returns every field of a written header |
| Tar.AsWrittenDropsLastDigit | rust/mytar/src/main.rs:106 | as written every field reads back except the modification time, which comes back divided by 8 |
| Tar.LastmodTruncated | rust/mytar/src/main.rs:106 | the ten bytes the reader takes are the first ten of the eleven modification-time digits |
| Tar.LastmodCounterexample | rust/mytar/src/main.rs:106 | a header with modification time 1 reads back with 0 as written and with 1 as intended |
| CfgParse.HexDecode | rust/cfgparse/src/main.rs:52 | Ok iff the UTF-8 length is even and every character is a hex digit; an error is OddLength iff the length is odd; success yields one byte per two digits |
| CfgParse.ParseKey | rust/cfgparse/src/main.rs:50-54 | collecting the pieces between spaces and hex-decoding them is hex decoding of the line with every space removed |
| CfgParse.Hex2 | rust/cfgparse/src/main.rs:64 | {:02X} gives two hex digits |
| CfgParse.ParseKeyOfKeyToString | rust/cfgparse/src/main.rs:50-67 | parse_key reads back key_to_string for every key |
| CfgParse.ParseSpiSpec | rust/cfgparse/src/main.rs:56-60 | parse_spi accepts exactly an optional '+' then hex digits whose value fits in u32, and returns it |
| CfgParse.ParseOffsetSpec | rust/cfgparse/src/main.rs:95 | an offset line is accepted exactly when, after an optional '+', it holds decimal digits whose value is below 256, and then gives that value |
| CfgParse.OffsetRoundTrip | rust/cfgparse/src/main.rs:95 | a three-digit rendering of a u8 parses back |
| CfgParse.TrimLines | rust/cfgparse/src/main.rs:73 | one trimmed line per input line, in order |
| CfgParse.ConsumeLines | rust/cfgparse/src/main.rs:76-113 | popping nine fields off the queue, stopping at the first missing or bad one, computes ParseLines |
| CfgParse.ParseCfgFile | rust/cfgparse/src/main.rs:69-114 | splitting, trimming and consuming the text computes ParseCfgText |
| CfgParse.ParseLinesOutcome | rust/cfgparse/src/main.rs:76-113 | a missing line is reported with the message of the first field lacking; success needs nine lines, sets vc iff line 9 is "vc" and takes keys, SPI, mode and algorithm from their lines; all numeric fields parsing implies success |
| CfgParse.MissingDistinct | rust/cfgparse/src/main.rs:76-106 | only the first missing-field message is "Key 1 not found" |
| CfgParse.FirstKeyNeverMissing | rust/cfgparse/src/main.rs:72-76 | splitting always yields a line, so "Key 1 not found" never occurs |
| CfgParse.LinesOfRender | rust/cfgparse/src/main.rs:72-73 | splitting and trimming a rendered configuration gives its nine lines |
| CfgParse.ParseLinesOfRender | rust/cfgparse/src/main.rs:76-113 | the nine rendered lines parse to the values |
| CfgParse.ParseCfgTextOfRender | rust/cfgparse/src/main.rs:69-114 | reading a rendered configuration text gives back its values |
| RustFlags.Flags.New | rust/rust-flags/src/lib.rs:16-18 | the flags hold the given byte |
| RustFlags.Flags.Default | rust/rust-flags/src/lib.rs:58-62 | the default byte is 0x80 |
| RustFlags.Flags.SetS | rust/rust-flags/src/lib.rs:24-30 | the byte becomes the S update of the old byte |
| RustFlags.Flags.SetD | rust/rust-flags/src/lib.rs:36-42 | the byte becomes the D update of the old byte |
| RustFlags.Flags.SetVersion | rust/rust-flags/src/lib.rs:48-51 | the byte becomes the old byte ORed with (val << 2) & 0xC3 |
| RustFlags.Flags.Build | rust/rust-flags/src/lib.rs:53-55 | build returns the current byte |
| RustFlags.WithSOnlyBit0 | rust/rust-flags/src/lib.rs:20-30 | after set_s(val), s() is val and every other bit is unchanged |
| RustFlags.WithDOnlyBit1 | rust/rust-flags/src/lib.rs:32-42 | after set_d(val), d() is val and every other bit is unchanged |
| RustFlags.SetSAndDCombinations | rust/rust-flags/src/lib.rs:91-102 | the four S/D combinations give 3, 1, 2 and 0 |
| RustFlags.DefaultWithSAndD | rust/rust-flags/src/lib.rs:104-111 | the default flags with S and D set build to 0x83 |
| RustFlags.SetVersionKeepsVersion | rust/rust-flags/src/lib.rs:44-51 | as written, set_version never changes version() |
| RustFlags.SetVersionCounterexample | rust/rust-flags/src/lib.rs:48-51 | on the default byte set_version(1) leaves version 0 as written, and gives 1 as intended |
| RustFlags.WithVersionIntendedSpec | rust/rust-flags/src/lib.rs:6-10 | the corrected setter stores the low four bits as the version and keeps bits 0, 1, 6 and 7 |
| PspBitfields.SetBitSpec | rust/bitfields/src/lib.rs:39-43 | setting a one-bit field makes it read back and leaves the other seven bits unchanged |
| PspBitfields.SetVersionSpec | rust/bitfields/src/lib.rs:41 | set_version stores the low four bits in bits 2..5 and keeps s, d, vc and r |
| PspBitfields.DefaultFlags | rust/bitfields/src/lib.rs:46-56 | the default flags are 0x80: s, d, vc clear, version 0, r set |
| PspBitfields.VersionNumber | rust/bitfields/src/lib.rs:58-64 | a version number is below 4, and 0 only for PspVer0 |
| PspBitfields.VersionNumberFits | rust/bitfields/src/lib.rs:41 | every protocol version reads back after set_version |
| PspBitfields.DefaultWithVersionOne | rust/bitfields/src/lib.rs:85-108 | the default flags with version 1 are 0x84, r still set |
| PspBitfields.Build | rust/bitfields/src/lib.rs:15-33 | each field is the given value, or its default (0, flags 0x80) when not given |
| PspBitfields.BuilderWithDefaults | rust/bitfields/src/lib.rs:71-83 | the builder test yields next_hdr 17, spi 0x12345678, iv 0x123456789ABCDEF0 and flags 0x80 |
| PspBitfields.BuilderWithFlags | rust/bitfields/src/lib.rs:85-109 | the builder given version-1 flags keeps them as 0x84 |
| PspPacket.New | rust/psp-packet/src/packet/psp.rs:5-20 | a view exists iff the buffer holds the 16 fixed header bytes, and it is over that buffer |
| PspPacket.Fields | rust/psp-packet/src/packet/psp.rs:6-17 | every getter's value fits its bit width |
| PspPacket.Encode | rust/psp-packet/src/packet/psp.rs:6-19 | a packet is 16 bytes longer than its payload |
| PspPacket.FlagsByte | rust/psp-packet/src/packet/psp.rs:11-15 | byte 3 packs s, d, version, vc and always1, and each getter reads its field back |
| PspPacket.FlagsOfByte | rust/psp-packet/src/packet/psp.rs:11-15 | every byte is the packing of its five flag fields |
| PspPacket.FieldsOfEncode | rust/psp-packet/src/packet/psp.rs:6-19 | reading a packet built from fields and a payload gives them back |
| PspPacket.EncodeOfFields | rust/psp-packet/src/packet/psp.rs:6-19 | every packet is the encoding of its own fields and payload |
| PspPacket.HeaderTestVector | rust/psp-packet/src/packet/psp.rs:22-35 | the test buffer gives spi 3, iv 0x0102030405060708, a 24-byte payload and a 40-byte packet |
| Splitter.StripCr | rust/splitter/src/lib.rs:6 | a line loses at most one final carriage return |
| Splitter.LinesSpec | rust/splitter/src/lib.rs:6 | no line holds a line feed, and only the empty text has no lines |
| Splitter.JoinLines | rust/splitter/src/lib.rs:6 | for a text without carriage returns, the lines joined by line feeds, plus the final line feed if there was one, give back the text |
| Splitter.ColonLines | rust/splitter/src/lib.rs:8 | every kept line contains a ':' |
| Splitter.EntrySpec | rust/splitter/src/lib.rs:7-9 | a line contributes iff it contains a ':', and then the trimmed text after its first ':' |
| Splitter.ValueTrimmed | rust/splitter/src/lib.rs:9 | every value has no whitespace at either end |
| Splitter.CollectSpec | rust/splitter/src/lib.rs:5-11 | the filter_map reading equals filtering the colon lines, then mapping each to its value |
| Splitter.TableNamesSpec | rust/splitter/src/lib.rs:5-11 | splitter yields, in order, one trimmed value per line containing ':', and nothing else |
| Splitter.EntryOfPair | rust/splitter/src/lib.rs:8-9 | an indented `key: value` line contributes exactly its value |
| Splitter.SplitterTestVector | rust/splitter/src/lib.rs:17-29 | the test text yields a.tb1, a.tb2, a.tb3 |

## Left out

- Locking: the pthread mutexes are not modelled, and operations run one at a time. Two lock defects are therefore out of scope:
  - DeleteIf locks a second time where it should unlock (fapi/TableManager.cpp:178).
  - RegisterCallBack returns while holding the lock on its RESOURCE_EXISTS and full-table paths (fapi/CallBackManager.cpp:100 and 118).
- Memory management: `new`/`delete` are left out, including Fire deleting the response array and itself (fapi/CallBack.cpp:74-75). Entries are values, copied in and out of the registry.
- Event scheduler: the scheduler is not part of this model. Scheduled callbacks are recorded in a FIFO with their priority argument and never run; the scheduler's declaration is not part of this model.
- Tracing: the trace and print functions (APISimTrace, show_file_info, the `info!`/`debug!` logging of cfgparse, `dbg!` in mytar) produce no state.
- Unused handles: the FE handle and block id arguments of the facade are not read by the code.
- Integer widths: ids, handles and correlators are unbounded naturals. The uint32 wrap of `m_handleID` and of the ids is not modelled. The registry invariant shows the counter never goes below the entry count.
- CallbackDispatch.CallBackHandler.AsyncCallback requires a registered handle. The source dereferences the retrieved pointer without a null check, and the facade checks the handle first.
- Devmem I/O: opening /dev/mem, mmap/munmap and their failures (MmapError, OpenError) are left out. Physical memory is a byte map, and the page size is a parameter that must be a power of two.
- DevMem.Load and DevMem.Store fix little-endian byte order. The program reads and writes through plain raw-pointer dereferences, in the host's byte order, so the model matches little-endian hosts only.
- Devmem main: argument parsing by clap and the read/write/read-back driver are left out. Only parse_number, parse_width and width_name are modelled.
- DNS networking: the UDP socket, the query builder and `main` of mydns are left out.
- Dns.DecodeQuestion and Dns.ParseQuestion require a well-formed buffer. On other input the source panics (out-of-bounds index or `unwrap` of invalid UTF-8); the model states the panic condition instead of an error value.
- Tar: file reading, list_archive_contents and main are left out. A panic in get_file_header (short block, non-octal field) is modelled as None.
- Tar names: the `.to_string()` of each NullString is not modelled. Names stay bytes, which differs from the program for names that are not valid UTF-8.
- Cfgparse: reading the file, clap and the logger are left out. The model parses the file contents.
- PspConfig: the code never fills it, so it is left out. The model's configuration record holds the nine values the code reads and logs.
- Serialization: the serde/bincode serialization of the bitfields header and the `Debug` output are left out.
- Macros: the `bitfield!`, `derive_builder` and pnet `#[packet]` macros are modelled by their generated getters, setters and builder. The mutable pnet view is left out.
- PspBitfields.Build does not model a builder failing: with `#[builder(default)]` every field has a default, so `build()` always succeeds.
- UTF-8 byte layout: strings are sequences of Unicode scalar values (`char::is_whitespace` is the White_Space property). UTF-8 is modelled only where the code looks at it: decoding DNS labels, and the length test of hex decoding.
- Other programs: the rest of the repository (Go, eBPF, C++20 samples, pcap reader, other Rust programs) is not part of this model.

## Findings

| source | as written | input that shows it | evidently intended | confidence | as-written member | corrected member |
|---|---|---|---|---|---|---|
| rust/rust-flags/src/lib.rs:48-51 | `set_version` ORs in `(val << 2) & 0xC3`, which keeps none of the version bits 2..5 | set_version(1) on the default byte 0x80 leaves version() at 0 | mask `0x3C`, replacing bits 2..5 by the low four bits of `val` | not executed | RustFlags.SetVersionCounterexample | RustFlags.WithVersionIntendedSpec |
| rust/mytar/src/main.rs:106 | the modification time is read from bytes 136..146, ten of its eleven octal digits | a header whose modification time is 1 (digits 00000000001) reads back as 0 | read bytes 136..147, all eleven digits, as for the size field | not executed | Tar.LastmodCounterexample | Tar.IntendedRoundTrip |
