# fns — NordVPN server reverse lookup, modelled in Dafny

`fns` is a command-line tool that finds which NordVPN server has a given IPv4
address. It builds the host names `<country><n>.nordvpn.com` for a range of
server numbers `n` and pings each one. It reads the resolved address from the
first line of ping's output, between the first `(` and the first `)`. Each
host is then classified against the target address:

- an **exact** match when the host resolved to a non-zero address equal to the target;
- a **partial** match when the first three octets agree, so that it is on the target's /24.

The multi-threaded entry point splits the number range into chunks of
`len / thread_count` ids. Each chunk goes to a worker thread, and the main
thread prints whatever the workers send back. An older single-threaded
prototype scans the fixed range 1..=1000 for country `au`. It keeps exact and
partial matches in two lists and reports exact matches first, then partial
ones, then "No Matches".

The model is functional. Panics of the Rust code are a `Panicked(cause)`
value of `Prelude.Result`:

- `unwrap` on `None`;
- a slice whose start lies after its end;
- an unparsable address;
- division by zero;
- `chunks(0)`.

The `ping` process is an arbitrary function from host name to address. The
threads and their channel become the multiset of what the workers send.

Modules follow the source layout:

- `Text`: `str::find`, `split`.
- `Decimal`: formatting of integers.
- `Ipv4`: dotted-quad text.
- `MatchTypes`: `enum_match_type.rs`.
- `WorkerModels`: `worker_models.rs`.
- `Hostname`, `Ping`, `DataFrame`, `Worker`, `EntryPoint`: `core/mod.rs`.
- `Prototype`: `__poc__/_prototype_st_main.rs`.

### Notable behaviour of the code

The model keeps these behaviours of the code as written:

- An unresolved host is rendered as `0.0.0.0` (src/core/mod.rs:65, 97). It is
  never an exact match (src/core/mod.rs:110). It is a partial match whenever
  the target lies in 0.0.0.0/24, because the partial test compares only three
  octets (src/core/mod.rs:117-120). `Worker.UnresolvedClassification` states
  this.
- `thread_count == 0` panics with a division by zero (src/core/mod.rs:160). A
  range shorter than the thread count, including an empty one, gives a chunk
  size of zero, and `chunks(0)` panics (src/core/mod.rs:162). No error value is
  returned for either case (`EntryPoint.ChunkDataframe`).
- Chunks are only "as even as possible" (src/core/mod.rs:160). The last chunk
  holds the remainder rather than spreading it. When the range length is not
  a multiple of the thread count, there are more chunks, and so more workers,
  than threads requested. `EntryPoint.ChunkCount` proves this, and
  `EntryPoint.MoreChunksThanThreads` gives an instance.
- A ping line with a `(` but no `)`, or with a `)` before the first `(`,
  panics rather than yielding 0.0.0.0 (src/core/mod.rs:68-70, `Ping.ParsePanics`).

## Model

| member | source | states |
|---|---|---|
| Text.IndexOf | src/core/mod.rs:68-69 | `find` gives `None` exactly when the character is absent. Otherwise it gives the position of its first occurrence. |
| Text.Split | src/core/mod.rs:62-64 | Splitting on `'\n'` yields at least one piece, so `data[0]` always exists. No piece contains the separator. |
| Text.JoinSplit | src/core/mod.rs:62 | Re-joining the pieces with the separator gives back the original text, so splitting loses nothing. |
| Text.SplitJoin | src/core/mod.rs:62 | Splitting a join of separator-free pieces recovers exactly those pieces. |
| Decimal.Show | src/core/mod.rs:57 | The decimal rendering of a number is canonical: non-empty, all digits, no leading zero except for `0` itself. |
| Decimal.ValueShow | src/core/mod.rs:57 | Reading back the decimal rendering of `n` gives `n`. |
| Decimal.ShowValue | src/core/mod.rs:57 | Every canonical digit string is the rendering of its own value. |
| Decimal.ShowCharacterised | src/core/mod.rs:57 | A text is the rendering of `n` if and only if it is a canonical numeral whose value is `n`. |
| Decimal.ShowInjective | src/core/mod.rs:57 | Two numbers have the same rendering if and only if they are equal. |
| Ipv4.ParseFormat | src/core/mod.rs:73 | Parsing the dotted-quad text of an address gives that address back. |
| Ipv4.FormatParse | src/core/mod.rs:73 | Any text that parses to an address is exactly that address's dotted-quad text. |
| Ipv4.ParseIffFormat | src/core/mod.rs:73 | A text parses to `a` if and only if it is the dotted-quad text of `a`. |
| Ipv4.UnspecifiedText | src/core/mod.rs:65-73 | The fallback text `0.0.0.0` parses to the unspecified address 0.0.0.0, and that address renders as `0.0.0.0`. |
| MatchTypes.Display | src/core/enum_match_type.rs:13-20 | Both match kinds render as a 9-character field padded with a space at each end. |
| MatchTypes.DisplayInjective | src/core/enum_match_type.rs:15-18 | The two kinds render differently, so the printed label identifies the kind. |
| MatchTypes.DisplayText | src/core/enum_match_type.rs:16-17 | The labels are `  Exact  ` and ` Partial `. |
| Hostname.IdOfVpnString | src/core/mod.rs:56-58 | The server number can be read back from the host name built for it. |
| Hostname.VpnStringOfId | src/core/mod.rs:56-58 | Any host name from which a number reads back is the name built for that number. |
| Hostname.VpnStringInjective | src/core/mod.rs:56-58 | Different server numbers give different host names for the same country prefix. |
| Hostname.VpnStringExamples | src/core/mod.rs:214-234 | `au` with 42 gives `au42.nordvpn.com`. An empty country with 42 gives `42.nordvpn.com`. |
| Ping.ParseEmptyFirstLine | src/core/mod.rs:61-74 | Ping output with an empty first line yields 0.0.0.0 without panicking. |
| Ping.ParseOnlyFirstLine | src/core/mod.rs:62-64 | Whatever follows the first newline has no effect on the result. |
| Ping.ParseFirstLineOnly | src/core/mod.rs:62-64 | The result on the whole output equals the result on its first line alone. |
| Ping.ParseBetween | src/core/mod.rs:67-73 | On a one-line output `pre(inner)post`, where `pre` has no parentheses and `inner` has no `)`, the result is the address parse of `inner`. |
| Ping.ParseRoundTrip | src/core/mod.rs:67-73 | Ping output carrying an address's text in the first parentheses of its first line yields exactly that address. |
| Ping.ParseOkShape | src/core/mod.rs:67-73 | A non-empty first line that yields address `a` consists of a parenthesis-free prefix, then `(`, the text of `a`, `)`, and the rest. |
| Ping.ParseOkIff | src/core/mod.rs:61-74 | A non-empty first line yields `a` if and only if it has that shape, so the parser's results are completely characterised. |
| Ping.ParsePanics | src/core/mod.rs:67-70 | A non-empty first line panics on `unwrap` exactly when it lacks `(` or `)`. It panics on the slice exactly when its first `)` comes before its first `(`. |
| Ping.ParseResolvedExample | src/core/mod.rs:257-266 | `PING au548.nordvpn.com (41.42.43.44): 56 data bytes` yields 41.42.43.44. |
| Ping.ParseEmptyExample | src/core/mod.rs:268-277 | Empty ping output yields 0.0.0.0. |
| DataFrame.Ids | src/core/mod.rs:47-53 | The data frame for `start..=end` has `end - start + 1` entries, or none when `start > end`. Entry `i` is `start + i`. |
| DataFrame.BuildData | src/core/mod.rs:47-53 | The push loop builds exactly the inclusive range. It is empty when `start > end`. |
| DataFrame.IdsIncreasing | src/core/mod.rs:49-51 | The ids of the data frame are strictly increasing. |
| DataFrame.IdsMembership | src/core/mod.rs:49-51 | A number is in the data frame if and only if it lies in `start..=end`. |
| DataFrame.IdsExample | src/core/mod.rs:241-249 | The data frame for 1..=10 has 10 entries. |
| DataFrame.Chunks | src/core/mod.rs:161-162 | `chunks(size)` partitions the input in order. Every chunk is non-empty and at most `size` long. All but the last are exactly `size` long. There are `ceil(len / size)` of them. |
| Worker.WorkerTask | src/core/mod.rs:91-131 | The worker loop sends the records of the scan of its chunk, in chunk order. It advances its progress bar once per id. |
| Worker.ScanAppend | src/core/mod.rs:100-128 | Scanning two consecutive stretches of ids sends the records of the first, then those of the second. |
| Worker.ScanLength | src/core/mod.rs:100-128 | A worker sends at most one record per id. |
| Worker.ScanMembership | src/core/mod.rs:100-128 | A record is sent if and only if some id's host resolves to the record's address and classifies as the record's kind. |
| Worker.RecordFaithful | src/core/mod.rs:100-128 | Every sent record names a host of the chunk. It carries the address that host resolved to and the kind that address classifies as. |
| Worker.ScanInIdOrder | src/core/mod.rs:100-128 | Over increasing ids, the hosts of the sent records carry strictly increasing server numbers. |
| Worker.ClassifyExact | src/core/mod.rs:110 | A response is an exact match if and only if it is non-zero and equal to the target. |
| Worker.ClassifyPartial | src/core/mod.rs:109-120 | A response is a partial match if and only if it is not exact and shares the target's first three octets. |
| Worker.ClassifyNone | src/core/mod.rs:109-128 | Nothing is sent for a response if and only if it is off the target's /24. |
| Worker.PartialDiffersInLastOctet | src/core/mod.rs:109-120 | A resolved response is a partial match if and only if it agrees with the target on three octets and differs on the fourth. |
| Worker.UnresolvedClassification | src/core/mod.rs:97-120 | An unresolved host (0.0.0.0) is never an exact match. It is a partial match if and only if the target lies in 0.0.0.0/24. |
| Worker.ScanSilent | src/core/mod.rs:100-128 | If no id of the chunk matches, the worker sends nothing. |
| Worker.ScanSingleHit | src/core/mod.rs:100-128 | If only one id of the chunk can match, the worker sends exactly that id's record. |
| EntryPoint.ChunkCount | src/core/mod.rs:160-162 | With a non-zero chunk size `len / threads`, there are at least `threads` chunks. There are exactly `threads` if and only if `threads` divides `len`; otherwise there are more chunks than threads. |
| EntryPoint.ZeroChunkSizeIff | src/core/mod.rs:160 | The chunk size is zero if and only if there are more threads than ids. |
| EntryPoint.Requests | src/core/mod.rs:161-165 | One request per chunk, each carrying the country code and that chunk's ids. |
| EntryPoint.AllDataOfRequests | src/core/mod.rs:161-165 | The requests' data, concatenated, equals the chunks concatenated. |
| EntryPoint.ChunkedRequests | src/core/mod.rs:160-165 | The requests cover the whole data frame in order, with the chunk-length bounds of `chunks`. |
| EntryPoint.ChunkDataframe | src/core/mod.rs:157-165 | Zero threads panics with a division by zero. Otherwise `chunks(0)` panics if and only if there are more threads than ids. On success the requests cover `start..=end` in order, number at least `thread_count`, and hold `len / thread_count` ids each, except that the last may hold fewer. |
| EntryPoint.RunWorkers | src/core/mod.rs:167-181 | One worker per request. Each sends the scan of its own request. |
| EntryPoint.RunWorkersIsScan | src/core/mod.rs:167-181 | The workers' outputs, concatenated, equal one sequential scan of all the requests' ids. The progress bars together count every id once. |
| EntryPoint.EntryPointMt | src/core/mod.rs:138-202 | The run panics if and only if `thread_count` is zero or exceeds the range length. Otherwise the records received are, as a multiset, those of one sequential scan of `start..=end`. |
| EntryPoint.TicksCoverRange | src/core/mod.rs:167-181 | The progress bars' lengths add up to the size of the range. |
| EntryPoint.MoreChunksThanThreads | src/core/mod.rs:160-165 | Ids 1..=10 on 3 threads give 4 chunks, so 4 workers. |
| EntryPoint.SingleHit | src/core/mod.rs:138-202 | When one host alone resolves on the target's /24, the run reports exactly that host once. It is exact when it resolved to the non-zero target and partial otherwise. |
| EntryPoint.AllUnresolved | src/core/mod.rs:138-202 | When no host resolves, the run reports nothing, provided the target is off 0.0.0.0/24. |
| Prototype.VpnNameAgreesWithCore | src/__poc__/_prototype_st_main.rs:41-43 | The prototype's 64-bit host naming agrees with the core's on 32-bit numbers. The number reads back from the name. |
| Prototype.ZPingParseAgreesWithCore | src/__poc__/_prototype_st_main.rs:53-67 | The prototype's inline ping parsing gives the same result as the core parser on every output. |
| Prototype.ScanLoop | src/__poc__/_prototype_st_main.rs:167-197 | The scan probes every id's host in order. It collects in the exact list and the partial list exactly the (host, address) pairs of the ids that classify so, in id order. |
| Prototype.ScanRange | src/__poc__/_prototype_st_main.rs:144-197 | The prototype probes `au1` to `au1000` in order. Its two lists are the exact and partial matches over 1..=1000. |
| Prototype.MatchesStep | src/__poc__/_prototype_st_main.rs:183-190 | One loop iteration adds the current host to at most one list, as its classification says. |
| Prototype.MatchesMembership | src/__poc__/_prototype_st_main.rs:174-190 | A pair is in a list if and only if some scanned id's host resolved to that address with that classification. |
| Prototype.MatchListsCharacterised | src/__poc__/_prototype_st_main.rs:183-190 | Over 1..=1000, a pair is exact exactly when its address is non-zero and equals the target. It is partial exactly when it is not exact but on the target's /24. No pair is in both lists. |
| Prototype.MatchesNonEmpty | src/__poc__/_prototype_st_main.rs:183-190 | A list is non-empty if and only if some scanned id classifies as its kind. |
| Prototype.ReportPriority | src/__poc__/_prototype_st_main.rs:199-205 | The report says exact when some id in 1..=1000 is an exact match. It says partial when none is exact but some is partial. It says no matches when no id matches. |
| Prototype.ScanIdsRange | src/__poc__/_prototype_st_main.rs:146-151 | An id of the prototype's range classifies as a kind if and only if some number in 1..=1000 does. |

## Left out

- Threads, the `mpsc` channel, the progress bars (`MultiProgress`, `ProgressBar`, styles, messages, `join_and_clear`) and the `verbose_info` banner with its CPU count are not modelled. Workers run one after another, and the order of reception is abstracted to a multiset. Progress is reduced to the per-id tick count.
- EntryPoint.EntryPointMt: the ping probe is a total function to an address. A panic inside a worker thread is not modelled; in the code it ends only that worker. The ping parser's panics are modelled separately, in `Ping.ParsePingResult`.
- Prototype.ScanRange: the probe is a total function to an address, so the scan never panics. In the prototype the probe is `z_ping_by_hostname`, whose parse panics on a malformed ping line (src/__poc__/_prototype_st_main.rs:62-67). Such a panic aborts `main` before the report at lines 199-205; `Prototype.ScanLoop` and `Prototype.ReportPriority` do not model that abort. The parse itself and its panics are modelled by `Prototype.ZPingParse`.
- Running `ping` and decoding its output as UTF-8 (`ping_by_hostname`, `z_ping_by_hostname` lines 45-53, `pinger`) are process I/O. They are the probe parameter. `pinger` and `chunky_test` in the prototype only print demonstrations and are left out.
- Text is a sequence of characters. Rust's `find` gives byte offsets, and these agree with character positions only on ASCII ping output.
- `Ipv4.Parse` accepts exactly four dot-separated canonical decimal octets of at most 255. That is the round-trippable part of the standard library's `Ipv4Addr` grammar; its other corner cases are not modelled.
- The country code table (`enum_country_code.rs`) is not part of this model. A country is its prefix string.
- `main.rs`: argument parsing, `is_valid_ip` and the mapping of arguments to `entry_point_mt` are not modelled.
- The printed output is not modelled: the banner, the result lines (`[kind]\t[ host, ip]`), the elapsed time and the prototype's `{:?}` lists. The report is the `Prototype.Report` value; line rendering is limited to `MatchTypes.Display`.
- The prototype's parsing of the target from the command line (lines 158-163), its unused arguments and its progress bar are left out. The target is a parameter.
- Integer widths: `thread_count` (`usize`) is an unbounded natural. Ids are `u32` in the core and `u64` in the prototype. No arithmetic on them can overflow, because `start..=end` is iterated by the standard library.
