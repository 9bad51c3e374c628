/** The query and the headers of a request: the token goes to a header and never to the query. */
module Consul {
  import opened Bytes
  import opened Kwargs
  import opened Query

  const DC: Keyword := Keyword(0, Ascii("dc"))

  const TOKEN: Keyword := Keyword(1, Ascii("token"))

  const CONTENT_TYPE: bytes := Ascii("Content-Type")

  const CONSUL_TOKEN: bytes := Ascii("X-Consul-Token")

  const APPLICATION_JSON: bytes := Ascii("application/json")

  /** The type of the token keyword makes its values strings. */
  predicate TokensAreText(params: seq<Arg>) {
    forall k | 0 <= k < |params| && params[k].key == TOKEN :: params[k].value.Text?
  }

  /** The default data center, unless the parameters name one. */
  function DefaultDc(dataCenter: bytes, params: seq<Arg>): seq<Pair> {
    if dataCenter == [] || DC in KeysOf(params) then [] else [Pair(Ascii("dc"), Some(dataCenter))]
  }

  lemma {:induction false} WithoutHasNone(params: seq<Arg>, key: Keyword)
    ensures forall a | a in KeepLast(Without(params, key)) :: a.key != key
  {
    WithoutKeys(params, key, key);
    KeepLastUnique(Without(params, key));
  }

  /** What the query of a request means: the default data center, and the parameters without tokens. */
  lemma RequestMeaning(dataCenter: bytes, params: seq<Arg>)
    ensures Meaning(KeepLast([KwArg(DC, Text(dataCenter))] + params + [KwArg(TOKEN, Text([]))]))
         == DefaultDc(dataCenter, params) + Meaning(KeepLast(Without(params, TOKEN)))
  {
    var dc := KwArg(DC, Text(dataCenter));
    var rest := Without(params, TOKEN);
    EmptyShadows([dc] + params, TOKEN);
    assert ([dc] + params)[1..] == params;
    assert DC != TOKEN;
    assert Without([dc] + params, TOKEN) == [dc] + rest;
    assert ([dc] + rest)[1..] == rest;
    WithoutKeys(params, TOKEN, DC);
    MeaningAppend([dc], KeepLast(rest));
    assert Meaning([dc]) == Pairs(dc) + [] == Pairs(dc);
    assert [] + KeepLast(rest) == KeepLast(rest) && [] + Meaning(KeepLast(rest)) == Meaning(KeepLast(rest));
  }

  class Consul {
    const dataCenter: bytes
    const defaultToken: bytes

    constructor (dataCenter: bytes, defaultToken: bytes)
      ensures this.dataCenter == dataCenter && this.defaultToken == defaultToken
    {
      this.dataCenter := dataCenter;
      this.defaultToken := defaultToken;
    }

    /** The query is read back as the parameters that count, and none of them is a token. */
    method MakeQuery(params: seq<Arg>) returns (r: bytes)
      ensures var kept := KeepLast(Without(params, TOKEN));
              && DecodeQuery(r) == Some(DefaultDc(dataCenter, params) + Meaning(kept))
              && forall a | a in kept :: a.key != TOKEN
    {
      var all := [KwArg(DC, Text(dataCenter))] + params + [KwArg(TOKEN, Text([]))];
      r := Query.MakeQuery(all);
      MeaningOk(KeepLast(all));
      PairsRoundTrip(Meaning(KeepLast(all)));
      RequestMeaning(dataCenter, params);
      WithoutHasNone(params, TOKEN);
    }

    /** The token header carries the last token among the parameters, or else the default token. */
    method MakeHeaders(params: seq<Arg>) returns (headers: map<bytes, bytes>)
      requires TokensAreText(params)
      ensures headers.Keys == {Ascii("Content-Type"), Ascii("X-Consul-Token")}
      ensures headers[Ascii("Content-Type")] == Ascii("application/json")
      ensures var token := headers[Ascii("X-Consul-Token")];
              if TOKEN in KeysOf(params) then KwArg(TOKEN, Text(token)) in KeepLast(params) else token == defaultToken
    {
      var token := GetOpt(params, TOKEN, Text(defaultToken));
      GetOptIsKept(params, TOKEN, Text(defaultToken), token);
      UniqueArgsKeepLast(params);
      if TOKEN in KeysOf(params) {
        GetPicksTheKeptOne(KeysOf(params), TOKEN);
      }
      assert |CONTENT_TYPE| != |CONSUL_TOKEN|;
      headers := map[];
      headers := headers[CONTENT_TYPE := APPLICATION_JSON];
      headers := headers[CONSUL_TOKEN := token.s];
    }
  }
}
