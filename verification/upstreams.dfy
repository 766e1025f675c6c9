/** The sanitiser for the comma-separated list of upstream URIs
    (`UPSTREAM_URIS`) and the map of RPC clients built from its result. */
module Upstreams {
  import opened Strings
  import opened Seqs

  /** Separator of the upstream list. */
  const Comma: char := ','

  /** Scheme prefix stripped before an RPC client is created. */
  const GrpcScheme: string := "grpc://"

  /** The test that keeps a trimmed piece: it is not the empty string. */
  predicate NonEmpty(s: string)
  {
    s != ""
  }

  /** A URI as the sanitiser emits it: not empty, free of commas, and
      neither starting nor ending with a space. */
  predicate Tidied(u: string)
  {
    u != "" && Comma !in u && u[0] != ' ' && u[|u| - 1] != ' '
  }

  /** Reference definition of the sanitiser: split on commas, trim spaces
      from each piece, drop the pieces that are left empty. */
  function Tidy(uris: string): (r: seq<string>)
    ensures forall i :: 0 <= i < |r| ==> Tidied(r[i])
    ensures |r| <= Occurrences(uris, Comma) + 1
  {
    var pieces := Split(uris, Comma);
    var trimmed := Map(Trim, pieces);
    var r := Filter(NonEmpty, trimmed);
    forall i | 0 <= i < |r|
      ensures Tidied(r[i])
    {
      var j :| 0 <= j < |trimmed| && trimmed[j] == r[i];
      MapAt(Trim, pieces, j);
    }
    r
  }

  /** The sanitiser as written: one pass over the split pieces, appending
      each non-empty trimmed piece to the result. */
  method TidyURIs(uris: string) returns (resp: seq<string>)
    ensures resp == Tidy(uris)
  {
    resp := [];
    var rawResp := Split(uris, Comma);
    for i := 0 to |rawResp|
      invariant resp == Filter(NonEmpty, Map(Trim, rawResp[..i]))
    {
      var r := Trim(rawResp[i]);
      assert rawResp[..i + 1] == rawResp[..i] + [rawResp[i]];
      MapAppend(Trim, rawResp[..i], [rawResp[i]]);
      FilterAppend(NonEmpty, Map(Trim, rawResp[..i]), [r]);
      if r != "" {
        resp := resp + [r];
      }
    }
    assert rawResp[..|rawResp|] == rawResp;
  }

  /** A URI is in the result exactly when it is the non-empty trimmed form
      of some comma-separated piece of the input. */
  lemma {:induction false} TidyMembers(uris: string, u: string)
    ensures u in Tidy(uris) <==>
            u != "" && exists j :: 0 <= j < |Split(uris, Comma)| && Trim(Split(uris, Comma)[j]) == u
  {
    var pieces := Split(uris, Comma);
    var trimmed := Map(Trim, pieces);
    FilterMembers(NonEmpty, trimmed, u);
    assert forall j :: 0 <= j < |pieces| ==> trimmed[j] == Trim(pieces[j]);
  }

  /** Two lists joined by a comma sanitise to the two results one after the
      other: the output keeps the order of the input. */
  lemma {:induction false} TidyConcat(a: string, b: string)
    ensures Tidy(a + [Comma] + b) == Tidy(a) + Tidy(b)
  {
    SplitConcat(a, b, Comma);
    MapAppend(Trim, Split(a, Comma), Split(b, Comma));
    FilterAppend(NonEmpty, Map(Trim, Split(a, Comma)), Map(Trim, Split(b, Comma)));
  }

  /** A single piece without commas sanitises to its trimmed form, or to
      nothing when it trims to the empty string. */
  lemma {:induction false} TidyPiece(piece: string)
    requires Comma !in piece
    ensures Tidy(piece) == if Trim(piece) == "" then [] else [Trim(piece)]
  {
    SplitNoSeparator(piece, Comma);
    assert Map(Trim, [piece]) == [Trim(piece)];
    assert [Trim(piece)][..0] == [];
  }

  /** Nothing but commas and spaces. */
  predicate Blank(s: string)
  {
    forall i :: 0 <= i < |s| ==> s[i] == Comma || s[i] == ' '
  }

  lemma {:induction false} BlankConcat(a: string, b: string)
    ensures Blank(a + [Comma] + b) <==> Blank(a) && Blank(b)
  {
    var s := a + [Comma] + b;
    assert forall i :: 0 <= i < |a| ==> s[i] == a[i];
    assert forall i :: 0 <= i < |b| ==> s[|a| + 1 + i] == b[i];
  }

  /** The result is empty exactly when the input holds nothing but commas
      and spaces (the empty input included). */
  lemma {:induction false} TidyEmptyIff(uris: string)
    ensures Tidy(uris) == [] <==> Blank(uris)
    decreases |uris|
  {
    if Comma in uris {
      var k :| 0 <= k < |uris| && uris[k] == Comma;
      var a, b := uris[..k], uris[k + 1..];
      assert uris == a + [Comma] + b;
      TidyConcat(a, b);
      TidyEmptyIff(a);
      TidyEmptyIff(b);
      BlankConcat(a, b);
    } else {
      TidyPiece(uris);
      TrimEmptyIff(uris);
      assert Blank(uris) <==> AllSpaces(uris);
    }
  }

  /** Trimming leaves a list of sanitised URIs unchanged. */
  lemma {:induction false} MapTrimTidied(r: seq<string>)
    requires forall i :: 0 <= i < |r| ==> Tidied(r[i])
    ensures Map(Trim, r) == r
  {
    forall i | 0 <= i < |r|
      ensures Trim(r[i]) == r[i]
    {
      assert Tidied(r[i]);
      TrimFixed(r[i]);
    }
  }

  /** A non-empty list of sanitised URIs, joined with commas, sanitises
      back to itself. */
  lemma {:induction false} TidyJoin(r: seq<string>)
    requires |r| > 0
    requires forall i :: 0 <= i < |r| ==> Tidied(r[i])
    ensures Tidy(Join(r, Comma)) == r
  {
    forall i | 0 <= i < |r|
      ensures Comma !in r[i]
    {
      assert Tidied(r[i]);
    }
    SplitJoin(r, Comma);
    MapTrimTidied(r);
    FilterAll(NonEmpty, r);
  }

  /** Joining the result with commas and sanitising again gives the same
      list: the sanitiser is idempotent. */
  lemma {:induction false} TidyIdempotent(uris: string)
    ensures Tidy(Join(Tidy(uris), Comma)) == Tidy(uris)
  {
    var r := Tidy(uris);
    if |r| == 0 {
      TidyPiece("");
    } else {
      TidyJoin(r);
    }
  }

  /** The result of `strings.TrimPrefix(u, "grpc://")`: the address an RPC
      client is created for. */
  function GrpcAddress(u: string): (address: string)
    ensures GrpcScheme <= u ==> u == GrpcScheme + address
    ensures !(GrpcScheme <= u) ==> address == u
  {
    TrimPrefix(u, GrpcScheme)
  }

  /** The RPC client created for one upstream: the abstract result of the
      client constructor, recording what it was built from. */
  datatype GrpcClient = GrpcClient(address: string, timeout: int)

  /** Builds the map from each sanitised URI (as written, scheme included)
      to the RPC client created for its address with the scheme stripped.
      Every sanitised URI gets an entry, whether or not it names the RPC
      scheme. */
  method BuildGrpcClients(uris: string, timeout: int) returns (clients: map<string, GrpcClient>)
    ensures clients.Keys == set u | u in Tidy(uris)
    ensures forall u :: u in clients ==> clients[u] == GrpcClient(GrpcAddress(u), timeout)
  {
    clients := map[];
    var tidied := TidyURIs(uris);
    for i := 0 to |tidied|
      invariant clients.Keys == set u | u in tidied[..i]
      invariant forall u :: u in clients ==> clients[u] == GrpcClient(GrpcAddress(u), timeout)
    {
      var u := tidied[i];
      var u2 := GrpcAddress(u);
      assert tidied[..i + 1] == tidied[..i] + [u];
      clients := clients[u := GrpcClient(u2, timeout)];
    }
    assert tidied[..|tidied|] == tidied;
  }
}
