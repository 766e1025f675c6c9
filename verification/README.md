# Upstream URI sanitiser of fake-lambda, in Dafny

fake-lambda runs the fake-service request handler as an event-driven
function. Its startup wiring reads a comma-separated list of upstream
services from `UPSTREAM_URIS` and cleans it with `tidyURIs`. That function
splits the list on `,`, trims the space character from both ends of each
piece and drops the pieces that are left empty. For every cleaned URI it
then strips a leading `grpc://` and creates an RPC client, keyed by the
cleaned URI as written.

This project models that logic on `seq<char>`:

- `strings.dfy` (module `Strings`) models the Go `strings` functions it
  relies on: `Split` on one separator character, `Trim` with the cutset
  `" "` (built from `TrimLeft` and `TrimRight`), `TrimPrefix`, and `Join`,
  the inverse of `Split`.
- `seqs.dfy` (module `Seqs`) holds the generic `Map` and `Filter`.
- `upstreams.dfy` (module `Upstreams`) holds three things:
  - the reference definition `Tidy(uris) = Filter(NonEmpty, Map(Trim, Split(uris, ',')))`;
  - the append loop of `tidyURIs`, as `TidyURIs`, proved equal to `Tidy`;
  - the loop that builds the RPC client map, as `BuildGrpcClients`.

`tidyURIs` never rejects a list: it drops the pieces that trim to the empty
string (main.go:197). Every cleaned URI gets an RPC client entry, whatever
its scheme (main.go:118-128). The per-request choice between HTTP and RPC is
made in the `handlers` package, which is not modelled.

## Model

| member | source | states |
|---|---|---|
| Strings.Split | main.go:193 | `n` commas give `n + 1` pieces, so the empty string gives one empty piece, and no piece contains the separator |
| Strings.JoinSplit | main.go:193 | joining the pieces with the separator gives back the input, so splitting loses no character |
| Strings.SplitJoin | main.go:193 | pieces that contain no separator come back unchanged from a join followed by a split |
| Strings.SplitCons | main.go:193 | a first character that is the separator closes an empty first piece; any other character is prepended to the first piece of the rest |
| Strings.SplitNoSeparator | main.go:193 | a string without the separator splits into itself alone |
| Strings.SplitConcat | main.go:193 | a separator between `a` and `b` splits exactly there: the pieces of `a` come first, then those of `b` |
| Strings.TrimLeft | main.go:196 | the result is the suffix left after a run of spaces, and it does not start with a space |
| Strings.TrimRight | main.go:196 | the result is the prefix left before a run of spaces, and it does not end with a space |
| Strings.Trim | main.go:196 | the result is no longer than the input, does not start or end with `' '`, and holds only characters of the input |
| Strings.TrimInfix | main.go:196 | the trimmed string is a contiguous part of the input with only spaces before it and after it |
| Strings.TrimEmptyIff | main.go:196-197 | a piece trims to the empty string exactly when it is all spaces |
| Strings.TrimKeepsFirst | main.go:196 | a first character other than `' '` (a tab, for instance) is kept |
| Strings.TrimKeepsLast | main.go:196 | a last character other than `' '` is kept |
| Strings.TrimFixed | main.go:196 | a string that neither starts nor ends with a space is left unchanged |
| Strings.TrimIdempotent | main.go:196 | trimming twice is the same as trimming once |
| Strings.TrimPrefix | main.go:120 | when `u` starts with the prefix, prefix plus result is `u`; otherwise the result is `u` unchanged |
| Strings.TrimPrefixOnce | main.go:120 | the prefix is removed exactly once: `TrimPrefix("grpc://" + t, "grpc://") == t`, even when `t` itself starts with `grpc://` |
| Seqs.Map | main.go:195-196 | trimming every piece yields exactly one trimmed string per piece |
| Seqs.MapAt | main.go:195-196 | the trimmed string at position `i` is the trim of the piece at position `i` |
| Seqs.MapAppend | main.go:195-196 | trimming each piece commutes with concatenating the lists of pieces |
| Seqs.Filter | main.go:197-199 | at most as many elements as the input, each one taken from the input and satisfying the predicate |
| Seqs.FilterMembers | main.go:197-199 | an element is kept exactly when it occurs in the input and satisfies the predicate |
| Seqs.FilterAppend | main.go:195-200 | filtering distributes over concatenation, so the kept elements stay in their input order |
| Upstreams.NonEmpty | main.go:197 | the test `r != ""` that decides whether a trimmed piece is appended |
| Seqs.FilterAll | main.go:197-199 | a list whose elements all satisfy the predicate is kept whole |
| Upstreams.Tidy | main.go:191-203 | every result element is non-empty, has no comma and neither starts nor ends with `' '`; the result has at most (number of commas + 1) elements |
| Upstreams.TidyURIs | main.go:191-203 | the append loop over the split pieces returns exactly the reference definition `Filter(NonEmpty, Map(Trim, Split(uris, ',')))` |
| Upstreams.TidyMembers | main.go:193-200 | a URI is in the result exactly when it is the non-empty trimmed form of some comma-separated piece of the input |
| Upstreams.TidyConcat | main.go:193-200 | for two lists joined by a comma, the result is the result for the first followed by the result for the second: input order is kept |
| Upstreams.TidyPiece | main.go:193-199 | a piece without commas gives its trimmed form, or nothing if that is empty |
| Upstreams.TidyEmptyIff | main.go:192-202 | the result is empty exactly when the input holds only commas and spaces, the empty input included |
| Upstreams.TidyJoin | main.go:191-203 | a non-empty list of already sanitised URIs, joined with `,`, sanitises back to the same list |
| Upstreams.TidyIdempotent | main.go:191-203 | joining the result with `,` and sanitising again returns the same list |
| Upstreams.GrpcAddress | main.go:120 | the address a client is built for: when the URI starts with `grpc://`, that prefix followed by the address is the URI; otherwise the address is the URI unchanged |
| Upstreams.BuildGrpcClients | main.go:117-129 | the map keys are exactly the sanitised URIs, as written; each one maps to a client built for its address with one leading `grpc://` removed, and URIs without that scheme get an entry too |

## Left out

- Environment variable declarations and `env.Parse` (main.go:26-70): configuration input; only the value of `UPSTREAM_URIS` enters the model, as a parameter.
- Logger and metrics construction (main.go:72-75): logging plumbing with no effect on the result.
- CPU percentage adjustment (main.go:101-107): floating-point arithmetic and a query of the host's CPU count.
- Construction of the timing, error-injection, load and request generators, the HTTP client and the request handler (main.go:77-114, 131-145): calls into packages that are not part of this model.
- `client.NewGRPC` (main.go:122): its behaviour is not visible, so a client is modelled as the record `GrpcClient(address, timeout)` of what it was built from. Its error path, which logs and exits the process (main.go:123-126), is not modelled. A URI that appears twice in the list is given a second client, which replaces the first in the map (main.go:128); as clients are modelled as equal records built from the same address, the model cannot tell the two apart.
- `LambdaHandler` (main.go:148-183): JSON encoding and decoding, HTTP request construction and a response recorder.
- `main` (main.go:185-187): the entry point of the function runtime.
- The latency model, fault injector, load generator and fan-out engine: they live in the `timing`, `errors`, `load` and `handlers` packages, which are not part of this model. They involve randomness, sleeping, concurrency and floating point.
- Go strings are UTF-8 bytes; the model works on characters. The separator `,` and the cutset `" "` are single ASCII characters, so splitting and trimming give the same pieces either way.
