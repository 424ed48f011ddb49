/** The payload tokenizer of src/mqttClient.ts (`parseMessagePayload`): a
    comma-separated list of `key=value` pairs turned into a string map with
    trimmed keys and values. */
module MqttClient {
  import JsText
  import opened JsValue
  import opened Parser
  import ParserLemmas

  /** The map the loop has built after the tokens `pairs`: a token with an
      `=` stores its trimmed value under its trimmed key, a later token
      overwriting an earlier one; a token without `=` is ignored. */
  function PayloadTokens(pairs: seq<string>): map<string, string>
    decreases |pairs|
  {
    if |pairs| == 0 then map[]
    else
      var acc := PayloadTokens(pairs[..|pairs| - 1]);
      var pair := pairs[|pairs| - 1];
      match TokenValue(pair)
      case None => acc
      case Some(v) => acc[JsText.Trim(TokenKey(pair)) := JsText.Trim(v)]
  }

  method ParseMessagePayload(payload: string) returns (result: map<string, string>)
    ensures result == PayloadTokens(JsText.Split(payload, ','))
  {
    var pairs := JsText.Split(payload, ',');
    result := map[];
    for i := 0 to |pairs|
      invariant result == PayloadTokens(pairs[..i])
    {
      assert pairs[..i + 1][..i] == pairs[..i];
      var parts := JsText.Split(pairs[i], '=');
      assert TokenKey(pairs[i]) == parts[0];
      if |parts| >= 2 {
        assert TokenValue(pairs[i]) == Some(parts[1]);
        result := result[JsText.Trim(parts[0]) := JsText.Trim(parts[1])];
      } else {
        assert TokenValue(pairs[i]) == None;
      }
    }
    assert pairs[..|pairs|] == pairs;
  }

  /** The token assigns a value (it contains `=`, by `TokenParts`) and its
      text before the first `=`, trimmed, is `k`. */
  predicate AssignsKey(pair: string, k: string) {
    TokenValue(pair).Some? && JsText.Trim(TokenKey(pair)) == k
  }

  /** A key is in the result exactly when some token assigns it. */
  lemma {:induction false} PayloadKeys(pairs: seq<string>, k: string)
    ensures k in PayloadTokens(pairs) <==> exists i :: 0 <= i < |pairs| && AssignsKey(pairs[i], k)
    decreases |pairs|
  {
    if |pairs| > 0 {
      var init := pairs[..|pairs| - 1];
      var last := pairs[|pairs| - 1];
      PayloadKeys(init, k);
      assert k in PayloadTokens(pairs) <==> k in PayloadTokens(init) || AssignsKey(last, k);
      if k in PayloadTokens(init) {
        var i :| 0 <= i < |init| && AssignsKey(init[i], k);
        assert pairs[i] == init[i];
        assert AssignsKey(pairs[i], k);
      } else if AssignsKey(last, k) {
        assert AssignsKey(pairs[|pairs| - 1], k);
      } else {
        forall i | 0 <= i < |pairs| ensures !AssignsKey(pairs[i], k) {
          if i < |init| {
            assert init[i] == pairs[i];
          } else {
            assert pairs[i] == last;
          }
        }
      }
    }
  }

  /** The value under a key is the trimmed value of the last token that has
      that key. */
  lemma {:induction false} PayloadLastWins(pairs: seq<string>, i: nat)
    requires i < |pairs| && '=' in pairs[i]
    requires forall j :: i < j < |pairs| && '=' in pairs[j] ==>
               JsText.Trim(TokenKey(pairs[j])) != JsText.Trim(TokenKey(pairs[i]))
    ensures JsText.Trim(TokenKey(pairs[i])) in PayloadTokens(pairs)
    ensures PayloadTokens(pairs)[JsText.Trim(TokenKey(pairs[i]))] == JsText.Trim(TokenValue(pairs[i]).value)
    decreases |pairs|
  {
    ParserLemmas.TokenParts(pairs[i]);
    var init := pairs[..|pairs| - 1];
    if i < |pairs| - 1 {
      ParserLemmas.TokenParts(pairs[|pairs| - 1]);
      assert init[i] == pairs[i];
      forall j | i < j < |init| && '=' in init[j]
        ensures JsText.Trim(TokenKey(init[j])) != JsText.Trim(TokenKey(init[i]))
      {
        assert init[j] == pairs[j];
      }
      PayloadLastWins(init, i);
    }
  }

  /** No key and no value of the result starts or ends with whitespace. */
  lemma {:induction false} PayloadTrimmed(pairs: seq<string>)
    ensures forall k | k in PayloadTokens(pairs) :: JsText.IsTrimmed(k) && JsText.IsTrimmed(PayloadTokens(pairs)[k])
    decreases |pairs|
  {
    if |pairs| > 0 {
      var last := pairs[|pairs| - 1];
      PayloadTrimmed(pairs[..|pairs| - 1]);
      if TokenValue(last).Some? {
        JsText.TrimIsCentralSlice(TokenKey(last));
        JsText.TrimIsCentralSlice(TokenValue(last).value);
      }
    }
  }

  /** Where every token has an `=` and is already trimmed around its key and
      value, the parser's own tokenizer (src/parser.ts) and this one agree. */
  lemma {:induction false} TokenizersAgree(pairs: seq<string>)
    requires forall i :: 0 <= i < |pairs| ==>
               && TokenValue(pairs[i]).Some?
               && JsText.IsTrimmed(TokenKey(pairs[i]))
               && JsText.IsTrimmed(TokenValue(pairs[i]).value)
    ensures Tokens(pairs).Keys == PayloadTokens(pairs).Keys
    ensures forall k | k in PayloadTokens(pairs) :: Tokens(pairs)[k] == Some(PayloadTokens(pairs)[k])
    decreases |pairs|
  {
    if |pairs| > 0 {
      var init := pairs[..|pairs| - 1];
      var last := pairs[|pairs| - 1];
      forall i | 0 <= i < |init| ensures init[i] == pairs[i] { }
      TokenizersAgree(init);
      JsText.TrimFixesTrimmed(TokenKey(last));
      JsText.TrimFixesTrimmed(TokenValue(last).value);
    }
  }

  /** A token without `=` contributes nothing, wherever it stands. */
  lemma {:induction false} BareTokenIgnored(pre: seq<string>, t: string, post: seq<string>)
    requires '=' !in t
    ensures PayloadTokens(pre + [t] + post) == PayloadTokens(pre + post)
    decreases |post|
  {
    if |post| == 0 {
      assert pre + [t] + post == pre + [t] && (pre + [t])[..|pre|] == pre;
      assert pre + post == pre;
      ParserLemmas.TokenParts(t);
    } else {
      var init := post[..|post| - 1];
      assert (pre + [t] + post)[..|pre + [t] + post| - 1] == pre + [t] + init;
      assert (pre + post)[..|pre + post| - 1] == pre + init;
      BareTokenIgnored(pre, t, init);
    }
  }

  /** A token may assign the empty key: `=5` yields the entry `"" := "5"`. */
  lemma EmptyKeyExample()
    ensures PayloadTokens(JsText.Split("=5", ',')) == map["" := "5"]
  {
  }

  /** The tokenizers part on the empty payload: here it gives no entries,
      while the parser's gives the empty key with no value. */
  lemma TokenizersDifferOnEmpty()
    ensures PayloadTokens(JsText.Split("", ',')) == map[]
    ensures Tokens(JsText.Split("", ',')) == map["" := None]
  {
  }
}
