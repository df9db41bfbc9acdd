/**
 * Concrete inputs and what trace.Sanitize and each of its passes make of them: a bearer
 * token header, a password in a query string, API keys and passwords in JSON, and a JSON key
 * whose key word is followed by '_' and so is kept.
 *
 * Each example is stated on its literal text; the proof works on a parameter equal to that
 * text, one fact about it at a time, with the placeholder left as a name.
 */
module SanitizerExamples {
  import opened Text
  import opened Sanitizer

  // ---------------------------------------------------------------------------------------
  // Helpers for reasoning about literal texts

  /** A word does not occur at p when one of its characters does not match. */
  lemma NotFoldAt(s: string, p: nat, w: string, i: nat)
    requires i < |w| && p + i < |s| && !FoldEq(s[p + i], w[i])
    ensures !FoldAt(s, p, w)
  {
  }

  /** A word occurs nowhere in [lo, hi) when its first letter does not. */
  lemma NoWordStart(s: string, lo: nat, hi: nat, w: string)
    requires |w| > 0 && hi <= |s|
    requires forall k :: lo <= k < hi ==> !FoldEq(s[k], w[0])
    ensures forall j :: lo <= j < hi ==> !FoldAt(s, j, w)
  {
    forall j | lo <= j < hi ensures !FoldAt(s, j, w) {
      NotFoldAt(s, j, w, 0);
    }
  }

  /** A key in which every key word is followed by '_' is not redactable. */
  lemma NoKeyWordBetween(s: string, lo: nat, hi: nat)
    requires lo <= hi <= |s|
    requires forall j :: lo <= j < hi ==> !KeyWordAt(s, j, hi)
    ensures !RedactableFrom(s, lo, hi)
  {
    RedactableFromSpec(s, lo, hi);
  }

  /** A single line that does not start with 'A' or 'X' is no header line. */
  lemma SingleLineNoHeader(s: string)
    requires '\n' !in s && (|s| > 0 ==> s[0] != 'A' && s[0] != 'X')
    ensures HeaderPass(s) == s
  {
    StartsAtFirst(s, 0, "Authorization");
    StartsAtFirst(s, 0, "X-Auth");
    forall p | 0 < p < |s| ensures !LineStart(s, p) {
      assert s[p - 1] in s;
    }
    HeaderPassClean(s);
  }

  /** The placeholder holds no quote and no equals sign. */
  lemma PlaceholderQuoteFree()
    ensures '"' !in Placeholder && '=' !in Placeholder
  {
  }

  /** A pattern that matches a text at p only: the text is kept around that one replacement. */
  lemma OneMatch(pat: Pattern, s: string, p: nat)
    requires p < |s| && MatchAt(pat, s, p).Some?
    requires forall k :: 0 <= k < p ==> MatchAt(pat, s, k).None?
    requires forall k :: MatchAt(pat, s, p).value.end <= k < |s| ==> MatchAt(pat, s, k).None?
    ensures ReplaceAll(pat, s) ==
      s[..p] + MatchAt(pat, s, p).value.replacement + s[MatchAt(pat, s, p).value.end..]
  {
    LeftmostMatchReplaced(pat, s, 0, p);
    NoMatchUnchanged(pat, s, MatchAt(pat, s, p).value.end);
    assert s[0..p] == s[..p];
  }

  // ---------------------------------------------------------------------------------------
  // Header pass

  /** A bearer token after "Authorization: " is replaced up to the end of its line. */
  lemma AuthorizationHeaderHidden()
    ensures HeaderPass("Authorization: Bearer abc123\n") == "Authorization: " + Placeholder + "\n"
    ensures Sanitize("Authorization: Bearer abc123\n") == "Authorization: " + Placeholder + "\n"
  {
    AuthorizationHeaderHiddenIn("Authorization: Bearer abc123", "Authorization: Bearer abc123\n");
  }

  lemma AuthorizationHeaderHiddenIn(line: string, s: string)
    requires line == "Authorization: Bearer abc123" && s == "Authorization: Bearer abc123\n"
    ensures HeaderPass(s) == "Authorization: " + Placeholder + "\n"
    ensures Sanitize(s) == "Authorization: " + Placeholder + "\n"
  {
    AuthorizationLineText(line, s);
    AuthorizationJoin(Placeholder);
    HeaderLineIs(line, 13);
    HeaderPassLine(line, "");
    PlaceholderQuoteFree();
    AuthorizationResultChars(Placeholder);
    QueryPassNeedsEquals("Authorization: " + Placeholder + "\n");
    JsonPassNeedsQuote("Authorization: " + Placeholder + "\n");
  }

  lemma AuthorizationResultChars(p: string)
    requires '=' !in p && '"' !in p
    ensures '=' !in "Authorization: " + p + "\n" && '"' !in "Authorization: " + p + "\n"
  {
  }

  lemma AuthorizationLineText(line: string, s: string)
    requires line == "Authorization: Bearer abc123" && s == "Authorization: Bearer abc123\n"
    ensures HeaderAt(line, 0, 13) && line[..13] == "Authorization"
    ensures line + "\n" + "" == s
  {
    assert line[0..13] == "Authorization";
  }

  lemma AuthorizationJoin(p: string)
    ensures "Authorization" + ": " + p + "\n" + "" == "Authorization: " + p + "\n"
  {
  }

  // ---------------------------------------------------------------------------------------
  // Query pass

  /** A password parameter keeps its name and the '&' after it; its value is hidden. */
  lemma QueryPasswordHidden()
    ensures QueryPass("foo=1&password=secret&bar=2") == "foo=1&password=" + Placeholder + "&bar=2"
    ensures Sanitize("foo=1&password=secret&bar=2") == "foo=1&password=" + Placeholder + "&bar=2"
  {
    QueryPasswordHiddenIn("foo=1&password=secret&bar=2");
  }

  lemma QueryPasswordHiddenIn(s: string)
    requires s == "foo=1&password=secret&bar=2"
    ensures QueryPass(s) == "foo=1&password=" + Placeholder + "&bar=2"
    ensures Sanitize(s) == "foo=1&password=" + Placeholder + "&bar=2"
  {
    QueryPasswordText(s);
    QueryPasswordJoin(Placeholder);
    QueryPasswordMatch(s);
    QueryPasswordNoMatchBefore(s);
    QueryPasswordNoMatchAfter(s);
    OneMatch(Query, s, 6);
    SingleLineNoHeader(s);
    PlaceholderQuoteFree();
    QueryPasswordResultChars(Placeholder);
    JsonPassNeedsQuote("foo=1&password=" + Placeholder + "&bar=2");
  }

  lemma QueryPasswordResultChars(p: string)
    requires '"' !in p
    ensures '"' !in "foo=1&password=" + p + "&bar=2"
  {
  }

  lemma QueryPasswordText(s: string)
    requires s == "foo=1&password=secret&bar=2"
    ensures s[..6] == "foo=1&"
    ensures s[6..14] == "password"
    ensures s[22..] == "bar=2"
    ensures '\n' !in s && s[0] != 'A' && s[0] != 'X'
  {
    assert s[6..14] == s[6..][..8];
    assert |s| == 27;
    assert forall k :: 0 <= k < 27 ==> s[k] != '\n';
  }

  lemma QueryPasswordJoin(p: string)
    ensures "foo=1&" + ("password" + "=" + p + "&") + "bar=2" == "foo=1&password=" + p + "&bar=2"
  {
  }

  /** The query pattern matches the example at the password parameter, up to the next '&'. */
  lemma QueryPasswordMatch(s: string)
    requires s == "foo=1&password=secret&bar=2"
    ensures QueryMatchAt(s, 6) == Some(Match(22, s[6..14] + "=" + Placeholder + "&"))
  {
    assert FoldAt(s, 6, "password") && s[14] == '=';
    assert NoneIn(s, 15, 21, '&') && s[21] == '&';
    IndexFromIs(s, 15, 21, '&');
    assert QueryKeyAt(s, 6, "password");
    QueryMatchAtKey(s, 6, "password");
  }

  /** The query pattern matches nowhere before the password parameter. */
  lemma QueryPasswordNoMatchBefore(s: string)
    requires s == "foo=1&password=secret&bar=2"
    ensures forall k :: 0 <= k < 6 ==> QueryMatchAt(s, k).None?
  {
    NoWordStart(s, 0, 6, "password");
    NoWordStart(s, 0, 6, "token");
    NoWordStart(s, 0, 6, "apikey");
    NoWordStart(s, 0, 6, "passcode");
    forall k | 0 <= k < 6 ensures QueryMatchAt(s, k).None? {
      QueryMatchNeeds(s, k);
    }
  }

  /** The query pattern matches nowhere after the password parameter. */
  lemma QueryPasswordNoMatchAfter(s: string)
    requires s == "foo=1&password=secret&bar=2"
    ensures forall k :: 22 <= k < |s| ==> QueryMatchAt(s, k).None?
  {
    assert |s| == 27;
    NotFoldAt(s, 22, "token", 0);
    forall k | 22 <= k < |s| ensures QueryMatchAt(s, k).None? {
      QueryMatchNeeds(s, k);
      assert k == 22 || k + 5 > |s|;
    }
  }

  // ---------------------------------------------------------------------------------------
  // JSON pass

  /** An API key value is hidden, and the white space after the ':' is dropped. */
  lemma JsonApiKeyHidden()
    ensures JsonPass("{\"apikey\": \"xyz987\"}") == "{\"apikey\":\"" + Placeholder + "\"}"
    ensures Sanitize("{\"apikey\": \"xyz987\"}") == "{\"apikey\":\"" + Placeholder + "\"}"
  {
    JsonApiKeyHiddenIn("{\"apikey\": \"xyz987\"}");
  }

  lemma JsonApiKeyHiddenIn(s: string)
    requires s == "{\"apikey\": \"xyz987\"}"
    ensures JsonPass(s) == "{\"apikey\":\"" + Placeholder + "\"}"
    ensures Sanitize(s) == "{\"apikey\":\"" + Placeholder + "\"}"
  {
    JsonApiKeyText(s);
    JsonApiKeyJoin(Placeholder);
    JsonApiKeyMatch(s);
    OneMatch(Json, s, 1);
    SingleLineNoHeader(s);
    QueryPassNeedsEquals(s);
  }

  lemma JsonApiKeyText(s: string)
    requires s == "{\"apikey\": \"xyz987\"}"
    ensures s[..1] == "{"
    ensures s[2..8] == "apikey"
    ensures s[19..] == "}"
    ensures '\n' !in s && '=' !in s && s[0] != 'A' && s[0] != 'X'
  {
  }

  lemma JsonApiKeyJoin(p: string)
    ensures "{" + ("\"" + "apikey" + "\":\"" + p + "\"") + "}" == "{\"apikey\":\"" + p + "\"}"
  {
  }

  /** The JSON pattern matches the example from the key's opening quote to the value's closing one. */
  lemma JsonApiKeyMatch(s: string)
    requires s == "{\"apikey\": \"xyz987\"}"
    ensures JsonMatchAt(s, 1) == Some(Match(19, JsonReplacement(s[2..8])))
    ensures JsonMatchAt(s, 0).None? && JsonMatchAt(s, 19).None?
  {
    assert NoneIn(s, 2, 8, '"') && s[1] == '"' && s[8] == '"' && s[9] == ':';
    assert WordAt(s, 2, 8, "apikey");
    ApiKeyValue(s);
    IndexFromIs(s, 2, 8, '"');
    JsonValueEndComplete(s, 10, 11, 18);
    JsonMatchAtParts(s, 1, 8, 18);
  }

  lemma ApiKeyValue(s: string)
    requires s == "{\"apikey\": \"xyz987\"}"
    ensures JsonValueAt(s, 10, 11, 18)
  {
    assert |s| == 20 && IsSpace(s[10]) && s[11] == '"' && s[18] == '"';
    assert NoneIn(s, 12, 18, ',');
  }

  /** A password value is hidden. */
  lemma JsonPasswordHidden()
    ensures JsonPass("{\"password\":\"dog\"}") == "{\"password\":\"" + Placeholder + "\"}"
    ensures Sanitize("{\"password\":\"dog\"}") == "{\"password\":\"" + Placeholder + "\"}"
  {
    JsonPasswordHiddenIn("{\"password\":\"dog\"}");
  }

  lemma JsonPasswordHiddenIn(s: string)
    requires s == "{\"password\":\"dog\"}"
    ensures JsonPass(s) == "{\"password\":\"" + Placeholder + "\"}"
    ensures Sanitize(s) == "{\"password\":\"" + Placeholder + "\"}"
  {
    JsonPasswordText(s);
    JsonPasswordJoin(Placeholder);
    JsonPasswordMatch(s);
    OneMatch(Json, s, 1);
    SingleLineNoHeader(s);
    QueryPassNeedsEquals(s);
  }

  lemma JsonPasswordText(s: string)
    requires s == "{\"password\":\"dog\"}"
    ensures s[..1] == "{"
    ensures s[2..10] == "password"
    ensures s[17..] == "}"
    ensures '\n' !in s && '=' !in s && s[0] != 'A' && s[0] != 'X'
  {
  }

  lemma JsonPasswordJoin(p: string)
    ensures "{" + ("\"" + "password" + "\":\"" + p + "\"") + "}" == "{\"password\":\"" + p + "\"}"
  {
  }

  /** The JSON pattern matches the example from the key's opening quote to the value's closing one. */
  lemma JsonPasswordMatch(s: string)
    requires s == "{\"password\":\"dog\"}"
    ensures JsonMatchAt(s, 1) == Some(Match(17, JsonReplacement(s[2..10])))
    ensures JsonMatchAt(s, 0).None? && JsonMatchAt(s, 17).None?
  {
    assert NoneIn(s, 2, 10, '"') && s[1] == '"' && s[10] == '"' && s[11] == ':';
    assert WordAt(s, 2, 10, "password");
    assert JsonValueAt(s, 12, 12, 16);
    IndexFromIs(s, 2, 10, '"');
    JsonValueEndComplete(s, 12, 12, 16);
    JsonMatchAtParts(s, 1, 10, 16);
  }

  /** In password_hint the key word is followed by '_', so the field is kept as it is. */
  lemma JsonUnderscoreKeyKept()
    ensures JsonPass("{\"password_hint\":\"dog\"}") == "{\"password_hint\":\"dog\"}"
    ensures Sanitize("{\"password_hint\":\"dog\"}") == "{\"password_hint\":\"dog\"}"
  {
    JsonUnderscoreKeyKeptIn("{\"password_hint\":\"dog\"}");
  }

  lemma JsonUnderscoreKeyKeptIn(s: string)
    requires s == "{\"password_hint\":\"dog\"}"
    ensures JsonPass(s) == s && Sanitize(s) == s
  {
    JsonUnderscoreText(s);
    JsonUnderscoreNoMatch(s);
    NoMatchUnchanged(Json, s, 0);
    SingleLineNoHeader(s);
    QueryPassNeedsEquals(s);
  }

  lemma JsonUnderscoreText(s: string)
    requires s == "{\"password_hint\":\"dog\"}"
    ensures s[0..] == s
    ensures '\n' !in s && '=' !in s && s[0] != 'A' && s[0] != 'X'
  {
    assert |s| == 23;
    assert forall k :: 0 <= k < 23 ==> s[k] != '\n' && s[k] != '=';
  }

  /** The key password_hint is not redactable: its one key word is followed by '_'. */
  lemma HintKeyKept(s: string)
    requires s == "{\"password_hint\":\"dog\"}"
    ensures !RedactableFrom(s, 2, 15)
  {
    HintNoPassword(s);
    HintNoToken(s);
    HintNoApikey(s);
    NoKeyWordBetween(s, 2, 15);
  }

  lemma HintNoPassword(s: string)
    requires s == "{\"password_hint\":\"dog\"}"
    ensures forall j :: 2 <= j < 15 ==> !WordAt(s, j, 15, "password")
  {
    NoWordStart(s, 3, 15, "password");
    assert s[10] == '_';
  }

  lemma HintNoToken(s: string)
    requires s == "{\"password_hint\":\"dog\"}"
    ensures forall j :: 2 <= j < 15 ==> !WordAt(s, j, 15, "token")
  {
    NoWordStart(s, 2, 11, "token");
  }

  lemma HintNoApikey(s: string)
    requires s == "{\"password_hint\":\"dog\"}"
    ensures forall j :: 2 <= j < 15 ==> !WordAt(s, j, 15, "apikey")
  {
    forall j | 2 <= j < 15 ensures !WordAt(s, j, 15, "apikey") {
      if j == 3 {
        NotFoldAt(s, 3, "apikey", 1);
      } else if j < 10 {
        NotFoldAt(s, j, "apikey", 0);
      }
    }
  }

  /**
   * A key holding two key words is redactable when the second has no '_' after it, even
   * though a '_' follows the first: token_password is hidden, password_hint is not.
   */
  lemma TwoKeyWordsRedactable(key: string)
    requires key == "token_password"
    ensures !WordAt(key, 0, |key|, "token")
    ensures KeyWordAt(key, 6, |key|) && RedactableKey(key)
  {
    assert |key| == 14 && key[5] == '_';
    assert FoldAt(key, 6, "password") by {
      forall k | 0 <= k < 8 ensures FoldEq(key[6 + k], "password"[k]) {}
    }
    assert WordAt(key, 6, 14, "password");
    var i: nat := 6;
    assert KeyWordAt(key, i, |key|);
  }

  /** The JSON pattern matches nowhere in the example. */
  lemma JsonUnderscoreNoMatch(s: string)
    requires s == "{\"password_hint\":\"dog\"}"
    ensures forall k :: 0 <= k < |s| ==> MatchAt(Json, s, k).None?
  {
    assert NoneIn(s, 2, 15, '"') && s[15] == '"' && s[16] == ':';
    assert s[17] == '"' && s[18] != ':' && s[21] == '"' && s[22] != ':' && s[22] != '"';
    assert forall k :: 0 <= k < |s| && k != 1 && k != 15 && k != 17 && k != 21 ==> s[k] != '"';
    HintKeyKept(s);
    IndexFromIs(s, 2, 15, '"');
    IndexFromIs(s, 16, 17, '"');
    IndexFromIs(s, 18, 21, '"');
  }
}
