# fgost supervisor core: a Dafny model

fgost is a process supervisor that runs tunnel clients (frp), local
listen-and-forward routers (gost) and a heartbeat beacon side by side. Almost
all of it is wiring of external engines with goroutines, timers and HTTP. This
project models the three sequential pieces of `main.go` whose behaviour can be
stated and proved:

- `Krand(size, kind)` (module `RandomString`, `krand.dfy`): allocates a byte
  buffer of `size` bytes and fills it position by position from the digits,
  the lower-case letters or the upper-case letters (`kind` 0, 1, 2), or, for any
  other `kind`, from a class drawn afresh per position. `rand.Intn` is an
  oracle: the sequence `draws` of the values it returns, each within the bound
  of its call. The method keeps the source's array and loop.
- The router build of `start()` (module `RouterSet`, `router_set.dfy`): the
  base route and then each named route are expanded by `GenRouters`, appended in
  order; any expansion error aborts the build and is returned; an empty
  collection is rejected with `invalid config`; otherwise every router is
  started once. `GenRouters` is a function parameter `gen`; "started" is the
  list `served` of routers on which `Serve()` would be launched. `Build` is the
  reference definition of the collection, and the lemmas relate it to the
  concatenation of the routes' groups.
- `base64d(varl)` (module `Base64`, `base64.dfy`): decodes standard padded
  Base64 (section 4 of RFC 4648) with the behaviour of Go's
  `base64.StdEncoding.DecodeString`, and returns the input unchanged when
  decoding fails. Go strings are byte strings (`Bytes.GoString`). An RFC 4648
  encoder is defined as the decoder's inverse, and the round trip is proved.

Go's decoder is a library routine, not code of this repository; the model
states its behaviour as documented for Go's standard encoding: carriage returns
and line feeds are skipped wherever they occur; the input, line breaks aside,
must consist of whole 4-character quanta; only the final quantum may be padded,
as `xx==` or `xxx=`; anything after padding is an error; the encoding is not
strict, so bits left over by padding need not be zero.

## Model

| member | source | states |
|---|---|---|
| `RandomString.Krand` | main.go:91-103 | returns a freshly allocated buffer of exactly `size` bytes; every byte is in the class of `kind` (digits 48..57 for 0, `a`..`z` for 1, `A`..`Z` for 2, the union for any other kind); byte `i` is `uint8(base + draw)` for the class and offset drawn for position `i`, two draws per position when the class is picked per position |
| `RandomString.ByteAt` | main.go:99-100 | every byte produced from in-bound draws lies in the allowed set of `kind` |
| `RandomString.EveryAllowedStringIsReachable` | main.go:92-100 | every string of allowed bytes is produced by some run of the random source, so the possible outputs are exactly the allowed strings of that length |
| `Bytes.ToUint8` | main.go:100 | Go's `uint8` conversion is the identity on 0..255 and congruent to its argument modulo 256 |
| `RouterSet.Start` | main.go:201-227 | if any expansion fails, that error is returned and nothing is served; if the collection is empty, `invalid config` is returned and nothing is served; otherwise nil is returned and exactly the built collection is served, in order, each router once |
| `RouterSet.BuildOkIffAllExpand` | main.go:204-217 | the build succeeds if and only if every route expands, and then it is the groups concatenated in route order (base first) |
| `RouterSet.BuildErrIsFirstFailure` | main.go:205-208 | a failed build returns the error of the first route that fails, all routes before it having expanded |
| `RouterSet.BuildErrSticks` | main.go:211-216 | once a route fails, later routes do not change the outcome: partial results are discarded |
| `RouterSet.FlattenAppend` | main.go:209-216 | appending a group to the collection extends the concatenation by that group |
| `RouterSet.FlattenSize` | main.go:219 | the collection holds as many routers as the groups together |
| `RouterSet.ServedInRouteOrder` | main.go:204-224 | a successful build serves the base route's routers first, then the named routes' in order; the count is the sum of the group sizes |
| `Base64.Base64d` | main.go:158-164 | input that, line breaks aside, is not well-formed padded Base64 (whole quanta of alphabet characters, only the last ending in `xx==` or `xxx=`) is returned unchanged; well-formed input yields its decoding; the encoding of any bytes, with or without line breaks, yields those bytes |
| `Base64.DecodeQuantaIffWellFormed` | main.go:159-161 | the decoder succeeds exactly on well-formed padded Base64, so every other input takes the fallback |
| `Base64.Base64dOfEncoding` | main.go:158-163 | `base64d` of the RFC 4648 encoding of any bytes returns those bytes |
| `Base64.ForeignByteKept` | main.go:159-161 | input holding a byte outside the alphabet, padding and line breaks is returned unchanged |
| `Base64.BrokenQuantumKept` | main.go:159-161 | input whose characters (line breaks aside) do not fill whole quanta is returned unchanged |
| `Base64.EarlyPaddingKept` | main.go:159-161 | padding before the last two places is an error, so the input is returned unchanged |
| `Base64.LineBreakIgnored` | main.go:159 | inserting a carriage return or line feed anywhere leaves the decoding unchanged |
| `Base64.StripAppend` | main.go:159 | removing line breaks distributes over concatenation |
| `Base64.DecodeSextet` | main.go:159 | a byte the decoder accepts is the alphabet character of its value; padding and line breaks are not alphabet characters |
| `Base64.SextetRoundTrip` | main.go:159 | the decoder's table inverts the alphabet |
| `Base64.DecodeQuantum` | main.go:159 | an accepted quantum yields one to three bytes, holds only alphabet characters and padding, and is short only when final |
| `Base64.QuantumRoundTrip` | main.go:159 | each quantum of the encoder decodes back to its group of bytes |
| `Base64.DecodeQuantaEncode` | main.go:159 | decoding undoes encoding for every byte string |
| `Base64.DecodeQuantaLength` | main.go:159-161 | decodable input (line breaks aside) has a length that is a multiple of four |
| `Base64.EncodeLength` | main.go:159 | the encoding has four characters per started group of three bytes |
| `Base64.EncodeAlphabet` | main.go:159 | the encoding holds only alphabet characters and padding |
| `Base64.StripLineBreaks` | main.go:159 | removing line breaks keeps every other byte and leaves none behind |

## Left out

- `init` (main.go:48-88): flag parsing, printing and the external `parseBaseConfig`; CLI plumbing.
- `startProxy` (main.go:105-134): the profiling HTTP server, TLS loading and the fallback to `gost.GenCertificate`, `os.Exit`, and the final `select {}`; foreign calls and process control.
- `get` (main.go:136-156): an HTTP client; I/O.
- `main` (main.go:166-199): the goroutines, the `sync.WaitGroup`, the reconnect loop with `time.Sleep`, the heartbeat timer, and the frp calls `ControlProcess`, `client.LoadText` and `log.InitLog`; concurrency and external engines.
- `RouterSet.Start`: the `go routers[i].Serve()` goroutines are represented only by the list of routers started, not by concurrent serving; `gost.Debug = baseCfg.Debug` (main.go:202) is a global switch of the engine and is not modelled.
- `RandomString.Krand`: `rand.Seed(time.Now().UnixNano())` and the generator itself are replaced by the oracle `draws`; the model requires `size >= 0`, because `make([]byte, size)` panics on a negative length, and requires every draw within its `Intn` bound, which is what `rand.Intn` guarantees.
- `GenRouters`, the route configuration types and the router type belong to the gost engine and are not part of this model; they are type parameters here.
