/**
  Request shaping in front of the wallet back end: every call checks how many
  addresses it sends, the used-address filter keeps the caller's order, the UTXO
  fetch splits its input into chunks that each fit one request and concatenates the
  answers, and a failed request is classified as an API error (the server answered)
  or a network error (it did not). The HTTP transport itself is a parameter: a
  function from what is sent to what came back.
*/
module Api {
  import opened Wrappers

  /** The per-request limits of the back end (`CONFIG.API`). */
  datatype ApiConfig = ApiConfig(
    txHistoryMaxAddresses: nat,
    filterUsedMaxAddresses: nat,
    fetchUtxosMaxAddresses: nat,
    txHistoryResponseLimit: nat)

  /** What the HTTP client reports when a request fails: the server's response, if any, the request and an error code. */
  datatype HttpFailure = HttpFailure(response: Option<string>, request: string, code: string)

  /** The outcome of one HTTP request: the response body, or the client's failure. */
  datatype Transport<+T> = Delivered(data: T) | Failed(failure: HttpFailure)

  /** The errors the calls raise. */
  datatype ApiFailure =
    | ApiError(request: string)
    | NetworkError
    | PreconditionViolation(message: string)

  const TooManyTxHistoryAddresses := "fetchNewTxHistory: too many addresses"
  const TooManyFilterUsedAddresses := "filterUsedAddresses: too many addresses"

  // ---------------------------------------------------------------------------
  // `_fetch`

  /** The error a failed request turns into: a server that answered gives an API error, anything else (a timeout included) a network error. */
  function ClassifyFailure(e: HttpFailure): (r: ApiFailure)
    ensures r.ApiError? <==> e.response.Some?
    ensures r.ApiError? ==> r.request == e.request
    ensures r.NetworkError? <==> e.response.None?
  {
    if e.response.Some? then ApiError(e.request)
    else if e.code == "ECONNABORTED" then NetworkError
    else NetworkError
  }

  /** `_fetch`: the response body of a request that succeeded, or its classified failure. */
  function Fetch<T>(reply: Transport<T>): (r: Result<T, ApiFailure>)
    ensures r.Ok? <==> reply.Delivered?
    ensures r.Ok? ==> r.value == reply.data
    ensures r.Err? ==> r.error == ClassifyFailure(reply.failure) && !r.error.PreconditionViolation?
  {
    match reply
    case Delivered(data) => Ok(data)
    case Failed(failure) => Err(ClassifyFailure(failure))
  }

  // ---------------------------------------------------------------------------
  // `fetchNewTxHistory`

  /** One page of history: the converted transactions and whether the server has no more. */
  datatype HistoryPage<T> = HistoryPage(transactions: seq<T>, isLast: bool)

  /**
    `fetchNewTxHistory`: refuses too many addresses; otherwise asks `server` for the
    transactions of `addresses` since `dateFrom` and converts each with `convert`.
  */
  function FetchNewTxHistory<R, T>(
    config: ApiConfig, dateFrom: string, addresses: seq<string>,
    server: (seq<string>, string) -> Transport<seq<R>>, convert: R -> T): (r: Result<HistoryPage<T>, ApiFailure>)
    ensures |addresses| > config.txHistoryMaxAddresses <==> r == Err(PreconditionViolation(TooManyTxHistoryAddresses))
    ensures r.Ok? ==>
      && server(addresses, dateFrom).Delivered?
      && |r.value.transactions| == |server(addresses, dateFrom).data|
      && (forall k :: 0 <= k < |r.value.transactions| ==> r.value.transactions[k] == convert(server(addresses, dateFrom).data[k]))
      && (r.value.isLast <==> |server(addresses, dateFrom).data| <= config.txHistoryResponseLimit)
    ensures |addresses| <= config.txHistoryMaxAddresses ==> (r.Ok? <==> server(addresses, dateFrom).Delivered?)
    ensures |addresses| <= config.txHistoryMaxAddresses && server(addresses, dateFrom).Failed? ==>
      r == Err(ClassifyFailure(server(addresses, dateFrom).failure))
  {
    if |addresses| > config.txHistoryMaxAddresses then Err(PreconditionViolation(TooManyTxHistoryAddresses))
    else
      var response :- Fetch(server(addresses, dateFrom));
      var transactions := seq(|response|, k requires 0 <= k < |response| => convert(response[k]));
      Ok(HistoryPage(transactions, |response| <= config.txHistoryResponseLimit))
  }

  // ---------------------------------------------------------------------------
  // `filterUsedAddresses`

  /** The addresses of `addresses` that `used` contains, in the order of `addresses` (`filter` with `includes`). */
  function KeepUsed(addresses: seq<string>, used: seq<string>): (r: seq<string>)
    ensures forall a :: a in r <==> a in addresses && a in used
    ensures forall a :: multiset(r)[a] == if a in used then multiset(addresses)[a] else 0
    decreases |addresses|
  {
    if addresses == [] then []
    else
      assert addresses == [addresses[0]] + addresses[1..];
      (if addresses[0] in used then [addresses[0]] else []) + KeepUsed(addresses[1..], used)
  }

  /** `sub` is `s` with some elements left out, the others in their order. */
  predicate Subsequence<T(==)>(sub: seq<T>, s: seq<T>)
    decreases |s|
  {
    if sub == [] then true
    else if s == [] then false
    else (sub[0] == s[0] && Subsequence(sub[1..], s[1..])) || Subsequence(sub, s[1..])
  }

  /** The kept addresses are a subsequence of the input: the filter keeps the input's order. */
  lemma {:induction false} KeepUsedIsSubsequence(addresses: seq<string>, used: seq<string>)
    ensures Subsequence(KeepUsed(addresses, used), addresses)
    decreases |addresses|
  {
    if addresses != [] {
      KeepUsedIsSubsequence(addresses[1..], used);
      var rest := KeepUsed(addresses[1..], used);
      if addresses[0] in used {
        assert KeepUsed(addresses, used) == [addresses[0]] + rest;
        assert ([addresses[0]] + rest)[1..] == rest;
      } else {
        assert KeepUsed(addresses, used) == rest;
        if rest != [] {
          assert Subsequence(rest, addresses[1..]);
        }
      }
    }
  }

  /** A subsequence never holds an element more often than the sequence does. */
  lemma {:induction false} SubsequenceMultiset<T>(sub: seq<T>, s: seq<T>)
    requires Subsequence(sub, s)
    ensures multiset(sub) <= multiset(s)
    decreases |s|
  {
    if sub != [] {
      assert s == [s[0]] + s[1..];
      if sub[0] == s[0] && Subsequence(sub[1..], s[1..]) {
        SubsequenceMultiset(sub[1..], s[1..]);
        assert sub == [sub[0]] + sub[1..];
      } else {
        SubsequenceMultiset(sub, s[1..]);
      }
    }
  }

  /**
    The filter's result is the only subsequence of the input that holds every used
    address as often as the input does and no other address.
  */
  lemma {:induction false} KeepUsedUnique(sub: seq<string>, addresses: seq<string>, used: seq<string>)
    requires Subsequence(sub, addresses)
    requires forall a :: multiset(sub)[a] == if a in used then multiset(addresses)[a] else 0
    ensures sub == KeepUsed(addresses, used)
    decreases |addresses|
  {
    if addresses == [] {
      assert sub == [];
    } else {
      var x, t := addresses[0], addresses[1..];
      assert addresses == [x] + t;
      if x in used {
        assert multiset(sub)[x] == multiset(t)[x] + 1;
        if !(sub != [] && sub[0] == x && Subsequence(sub[1..], t)) {
          SubsequenceMultiset(sub, t);
          assert false;
        }
        assert sub == [x] + sub[1..];
        forall a ensures multiset(sub[1..])[a] == if a in used then multiset(t)[a] else 0 {
          assert multiset(sub)[a] == multiset(sub[1..])[a] + (if a == x then 1 else 0);
        }
        KeepUsedUnique(sub[1..], t, used);
      } else {
        if sub != [] {
          assert sub[0] != x by {
            assert sub == [sub[0]] + sub[1..];
            assert multiset(sub)[sub[0]] > 0;
          }
        }
        assert Subsequence(sub, t);
        KeepUsedUnique(sub, t, used);
      }
    }
  }

  /** Filtering twice against the same used list changes nothing the second time. */
  lemma {:induction false} KeepUsedIdempotent(addresses: seq<string>, used: seq<string>)
    ensures KeepUsed(KeepUsed(addresses, used), used) == KeepUsed(addresses, used)
  {
    var r := KeepUsed(addresses, used);
    KeepUsedAllUsed(r, used);
  }

  /** When every address is used the filter returns the input unchanged. */
  lemma {:induction false} KeepUsedAllUsed(addresses: seq<string>, used: seq<string>)
    requires forall k :: 0 <= k < |addresses| ==> addresses[k] in used
    ensures KeepUsed(addresses, used) == addresses
    decreases |addresses|
  {
    if addresses != [] {
      KeepUsedAllUsed(addresses[1..], used);
      assert addresses == [addresses[0]] + addresses[1..];
    }
  }

  /**
    `filterUsedAddresses`: refuses too many addresses; otherwise sends them to
    `server` and keeps those of its answer, in the order they were sent.
  */
  function FilterUsedAddresses(
    config: ApiConfig, addresses: seq<string>, server: seq<string> -> Transport<seq<string>>): (r: Result<seq<string>, ApiFailure>)
    ensures |addresses| > config.filterUsedMaxAddresses <==> r == Err(PreconditionViolation(TooManyFilterUsedAddresses))
    ensures |addresses| <= config.filterUsedMaxAddresses ==> (r.Ok? <==> server(addresses).Delivered?)
    ensures r.Ok? ==> server(addresses).Delivered?
    ensures r.Ok? ==> forall a :: a in r.value <==> a in addresses && a in server(addresses).data
    ensures r.Ok? ==> forall a :: multiset(r.value)[a] == if a in server(addresses).data then multiset(addresses)[a] else 0
    ensures r.Ok? ==> Subsequence(r.value, addresses)
    ensures r.Ok? ==> r.value == KeepUsed(addresses, server(addresses).data)
    ensures |addresses| <= config.filterUsedMaxAddresses && server(addresses).Failed? ==>
      r == Err(ClassifyFailure(server(addresses).failure))
  {
    if |addresses| > config.filterUsedMaxAddresses then Err(PreconditionViolation(TooManyFilterUsedAddresses))
    else
      var copy := addresses;
      var used :- Fetch(server(copy));
      KeepUsedIsSubsequence(copy, used);
      Ok(KeepUsed(copy, used))
  }

  // ---------------------------------------------------------------------------
  // `fetchUTXOsForAddresses` and `bulkFetchUTXOsForAddresses`

  /** `fetchUTXOsForAddresses`: refuses too many addresses (with the history call's message), otherwise the server's UTXOs. */
  function FetchUtxosForAddresses<U>(
    config: ApiConfig, addresses: seq<string>, server: seq<string> -> Transport<seq<U>>): (r: Result<seq<U>, ApiFailure>)
    ensures |addresses| > config.fetchUtxosMaxAddresses <==> r == Err(PreconditionViolation(TooManyTxHistoryAddresses))
    ensures |addresses| <= config.fetchUtxosMaxAddresses ==> r == Fetch(server(addresses))
  {
    if |addresses| > config.fetchUtxosMaxAddresses then Err(PreconditionViolation(TooManyTxHistoryAddresses))
    else Fetch(server(addresses))
  }

  /** lodash's `chunk`: consecutive pieces of `size` elements, the last one possibly shorter; none at all when `size` is below one. */
  function Chunk<T>(xs: seq<T>, size: int): (r: seq<seq<T>>)
    ensures size < 1 ==> r == []
    ensures forall k :: 0 <= k < |r| ==> 0 < |r[k]| <= size
    decreases |xs|
  {
    if size < 1 || xs == [] then []
    else if |xs| <= size then [xs]
    else [xs[..size]] + Chunk(xs[size..], size)
  }

  /** lodash's `flatten`: the pieces concatenated in order. */
  function Flatten<T>(xss: seq<seq<T>>): seq<T>
    decreases |xss|
  {
    if xss == [] then [] else xss[0] + Flatten(xss[1..])
  }

  /** The chunks concatenate back to the input (for a positive chunk size). */
  lemma {:induction false} FlattenChunk<T>(xs: seq<T>, size: int)
    requires size >= 1
    ensures Flatten(Chunk(xs, size)) == xs
    decreases |xs|
  {
    if xs != [] && |xs| > size {
      FlattenChunk(xs[size..], size);
      assert Chunk(xs, size) == [xs[..size]] + Chunk(xs[size..], size);
      assert xs == xs[..size] + xs[size..];
    }
  }

  /** Every chunk but the last holds exactly `size` elements. */
  lemma {:induction false} ChunkSizes<T>(xs: seq<T>, size: int)
    ensures forall k :: 0 <= k < |Chunk(xs, size)| - 1 ==> |Chunk(xs, size)[k]| == size
    decreases |xs|
  {
    if size >= 1 && xs != [] && |xs| > size {
      ChunkSizes(xs[size..], size);
      var rest := Chunk(xs[size..], size);
      assert Chunk(xs, size) == [xs[..size]] + rest;
      forall k | 1 <= k < |Chunk(xs, size)| - 1 ensures |Chunk(xs, size)[k]| == size {
        assert Chunk(xs, size)[k] == rest[k - 1];
      }
    }
  }

  /** The body the server sent for a request, or nothing for one that failed. */
  function Body<U>(reply: Transport<seq<U>>): seq<U> {
    if reply.Delivered? then reply.data else []
  }

  /** The per-chunk calls in chunk order, stopping at the first that fails, with the answers concatenated. */
  function FetchChunks<U>(
    config: ApiConfig, chunks: seq<seq<string>>, server: seq<string> -> Transport<seq<U>>): Result<seq<U>, ApiFailure>
    decreases |chunks|
  {
    if chunks == [] then Ok([])
    else
      var head :- FetchUtxosForAddresses(config, chunks[0], server);
      var tail :- FetchChunks(config, chunks[1..], server);
      Ok(head + tail)
  }

  /** `bulkFetchUTXOsForAddresses`: the UTXOs of any number of addresses, fetched chunk by chunk. */
  function BulkFetchUtxos<U>(
    config: ApiConfig, addresses: seq<string>, server: seq<string> -> Transport<seq<U>>): Result<seq<U>, ApiFailure>
  {
    FetchChunks(config, Chunk(addresses, config.fetchUtxosMaxAddresses), server)
  }

  /** Whether every chunk got a response. */
  predicate AllDelivered<U>(chunks: seq<seq<string>>, server: seq<string> -> Transport<seq<U>>) {
    forall k :: 0 <= k < |chunks| ==> server(chunks[k]).Delivered?
  }

  /** The answers of the chunks, in chunk order. */
  function Responses<U>(chunks: seq<seq<string>>, server: seq<string> -> Transport<seq<U>>): (r: seq<seq<U>>)
    ensures |r| == |chunks| && forall k :: 0 <= k < |chunks| ==> r[k] == Body(server(chunks[k]))
  {
    seq(|chunks|, k requires 0 <= k < |chunks| => Body(server(chunks[k])))
  }

  /**
    For chunks that each fit one request: the calls succeed exactly when every chunk is
    answered, the result is then the answers concatenated in chunk order, and otherwise
    it is the classified failure of the first chunk that was not answered.
  */
  lemma {:induction false} FetchChunksOutcome<U>(
    config: ApiConfig, chunks: seq<seq<string>>, server: seq<string> -> Transport<seq<U>>)
    requires forall k :: 0 <= k < |chunks| ==> |chunks[k]| <= config.fetchUtxosMaxAddresses
    ensures FetchChunks(config, chunks, server).Ok? <==> AllDelivered(chunks, server)
    ensures FetchChunks(config, chunks, server).Ok? ==>
      FetchChunks(config, chunks, server).value == Flatten(Responses(chunks, server))
    ensures FetchChunks(config, chunks, server).Err? ==>
      exists k ::
        && 0 <= k < |chunks|
        && server(chunks[k]).Failed?
        && AllDelivered(chunks[..k], server)
        && FetchChunks(config, chunks, server).error == ClassifyFailure(server(chunks[k]).failure)
    decreases |chunks|
  {
    if chunks != [] {
      var rest := chunks[1..];
      FetchChunksOutcome(config, rest, server);
      assert Responses(chunks, server) == [Body(server(chunks[0]))] + Responses(rest, server);
      if server(chunks[0]).Failed? {
        assert AllDelivered(chunks[..0], server);
      } else if FetchChunks(config, rest, server).Err? {
        var k :| 0 <= k < |rest| && server(rest[k]).Failed? && AllDelivered(rest[..k], server)
          && FetchChunks(config, rest, server).error == ClassifyFailure(server(rest[k]).failure);
        assert chunks[k + 1] == rest[k];
        var prefix := chunks[..k + 1];
        forall i | 0 <= i < k + 1 ensures server(prefix[i]).Delivered? {
          if i > 0 {
            assert prefix[i] == rest[..k][i - 1];
          }
        }
        assert AllDelivered(prefix, server);
      } else {
        forall i | 0 <= i < |chunks| ensures server(chunks[i]).Delivered? {
          if i > 0 {
            assert chunks[i] == rest[i - 1];
          }
        }
      }
    }
  }

  /**
    The bulk fetch never violates a per-call precondition: it succeeds exactly when
    every chunk is answered, with the answers concatenated in chunk order, and
    otherwise fails with a transport error.
  */
  lemma BulkFetchUtxosOutcome<U>(config: ApiConfig, addresses: seq<string>, server: seq<string> -> Transport<seq<U>>)
    ensures BulkFetchUtxos(config, addresses, server).Err? ==> !BulkFetchUtxos(config, addresses, server).error.PreconditionViolation?
    ensures BulkFetchUtxos(config, addresses, server).Ok? <==> AllDelivered(Chunk(addresses, config.fetchUtxosMaxAddresses), server)
    ensures BulkFetchUtxos(config, addresses, server).Ok? ==>
      BulkFetchUtxos(config, addresses, server).value == Flatten(Responses(Chunk(addresses, config.fetchUtxosMaxAddresses), server))
  {
    var chunks := Chunk(addresses, config.fetchUtxosMaxAddresses);
    FetchChunksOutcome(config, chunks, server);
  }

  /** With a limit below one, lodash's `chunk` yields no chunks, so nothing is requested and nothing is returned. */
  lemma BulkFetchWithoutLimit<U>(config: ApiConfig, addresses: seq<string>, server: seq<string> -> Transport<seq<U>>)
    requires config.fetchUtxosMaxAddresses == 0
    ensures BulkFetchUtxos(config, addresses, server) == Ok([])
  {
  }
}
