/**
 * trace.Sanitize: three whole-text redactions applied one after the other, each with the
 * semantics of Go's regexp.ReplaceAllString (leftmost-first matches, scanned left to right,
 * never overlapping). Each of the three fixed patterns is hand-coded as a matcher that gives
 * the match the regexp engine prefers at a position, if there is one.
 */
module Sanitizer {
  import opened Text

  const Placeholder: string := "[PRIVATE DATA HIDDEN]"

  /** The three patterns of Sanitize, in the order it applies them. */
  datatype Pattern =
    | Header  // (?m)^(Authorization|X-Auth\S*): .*
    | Query   // (?i)(password|token|apikey|passcode)=[^&]*(&|$)
    | Json    // (?i)"([^"]*(password|token|apikey)[^"_]*)":\s*"[^\,]*"

  /** A match: where it ends (exclusive) and the text its replacement template expands to. */
  datatype Match = Match(end: nat, replacement: string)

  // ---------------------------------------------------------------------------------------
  // Scanning helpers

  /** No position in [lo, hi) of s holds c. */
  predicate NoneIn(s: string, lo: nat, hi: nat, c: char) {
    forall k :: lo <= k < hi && k < |s| ==> s[k] != c
  }

  /** The first index at or after i that holds c, or |s| when there is none. */
  function IndexFrom(s: string, i: nat, c: char): (k: nat)
    requires i <= |s|
    ensures i <= k <= |s|
    ensures k < |s| ==> s[k] == c
    ensures NoneIn(s, i, k, c)
    decreases |s| - i
  {
    if i == |s| || s[i] == c then i else IndexFrom(s, i + 1, c)
  }

  /** The first index at or after i that is not white space (end of a `\s*` run), or |s|. */
  function SpaceEnd(s: string, i: nat): (k: nat)
    requires i <= |s|
    ensures i <= k <= |s|
    ensures k < |s| ==> !IsSpace(s[k])
    ensures forall j :: i <= j < k ==> IsSpace(s[j])
    decreases |s| - i
  {
    if i == |s| || !IsSpace(s[i]) then i else SpaceEnd(s, i + 1)
  }

  /** The first index at or after i that is white space (end of a `\S*` run), or |s|. */
  function NonSpaceEnd(s: string, i: nat): (k: nat)
    requires i <= |s|
    ensures i <= k <= |s|
    ensures k < |s| ==> IsSpace(s[k])
    ensures forall j :: i <= j < k ==> !IsSpace(s[j])
    decreases |s| - i
  {
    if i == |s| || IsSpace(s[i]) then i else NonSpaceEnd(s, i + 1)
  }

  /** The last index in [lo, hi) that holds c, if any. */
  function LastIndexIn(s: string, lo: nat, hi: nat, c: char): (r: Option<nat>)
    requires lo <= hi <= |s|
    ensures r.Some? ==> lo <= r.value < hi && s[r.value] == c && NoneIn(s, r.value + 1, hi, c)
    ensures r.None? ==> NoneIn(s, lo, hi, c)
    decreases hi - lo
  {
    if hi == lo then None
    else if s[hi - 1] == c then Some(hi - 1)
    else LastIndexIn(s, lo, hi - 1, c)
  }

  /** IndexFrom gives the same answer from any start before which c does not occur. */
  lemma IndexFromSkip(s: string, i: nat, j: nat, c: char)
    requires i <= j <= |s| && NoneIn(s, i, j, c)
    ensures IndexFrom(s, i, c) == IndexFrom(s, j, c)
  {
  }

  /** The first index holding c after a stretch without c is the one IndexFrom finds. */
  lemma IndexFromIs(s: string, i: nat, k: nat, c: char)
    requires i <= k < |s| && s[k] == c && NoneIn(s, i, k, c)
    ensures IndexFrom(s, i, c) == k
  {
  }

  // ---------------------------------------------------------------------------------------
  // Header pass: (?m)^(Authorization|X-Auth\S*): .*   replaced by  $1: [PRIVATE DATA HIDDEN]

  /** `^` under the m flag: the start of the text or just after a newline. */
  predicate LineStart(s: string, p: nat)
    requires p <= |s|
  {
    p == 0 || s[p - 1] == '\n'
  }

  /** The names `Authorization|X-Auth\S*` accepts (case-sensitive). */
  predicate HeaderName(name: string) {
    || name == "Authorization"
    || (|name| >= 6 && name[..6] == "X-Auth" && forall k :: 6 <= k < |name| ==> !IsSpace(name[k]))
  }

  /** A line starts at p with the header name s[p..p + n] followed by ": ". */
  predicate HeaderAt(s: string, p: nat, n: nat) {
    && p + n + 2 <= |s|
    && LineStart(s, p)
    && HeaderName(s[p..p + n])
    && s[p + n] == ':'
    && s[p + n + 1] == ' '
  }

  function HeaderMatchAt(s: string, p: nat): (r: Option<Match>)
    requires p <= |s|
    ensures r.Some? ==> p < r.value.end <= |s|
  {
    if !LineStart(s, p) then None
    else if StartsAt(s, p, "Authorization: ") then
      Some(Match(IndexFrom(s, p + 15, '\n'), "Authorization: " + Placeholder))
    else if StartsAt(s, p, "X-Auth") then
      // \S* is greedy and cannot cross the space of ": ", so the colon must end the run.
      var q := NonSpaceEnd(s, p + 6);
      if p + 6 < q < |s| && s[q - 1] == ':' && s[q] == ' ' then
        Some(Match(IndexFrom(s, q + 1, '\n'), s[p..q - 1] + ": " + Placeholder))
      else None
    else None
  }

  /** A header name holds no newline, so a header match never crosses the line end. */
  lemma HeaderAtNoNewline(s: string, p: nat, n: nat)
    requires HeaderAt(s, p, n)
    ensures NoneIn(s, p, p + n + 2, '\n')
  {
    var name := s[p..p + n];
    forall k | p <= k < p + n ensures s[k] != '\n' {
      assert s[k] == name[k - p];
      assert name == "Authorization" ==> name[k - p] in "Authorization";
      assert k - p < 6 ==> name[k - p] == name[..6][k - p];
    }
  }

  /** Which header match an "Authorization: " line gets. */
  lemma AuthorizationMatch(s: string, p: nat)
    requires HeaderAt(s, p, 13) && s[p..p + 13] == "Authorization"
    ensures HeaderMatchAt(s, p) == Some(Match(IndexFrom(s, p, '\n'), s[p..p + 13] + ": " + Placeholder))
  {
    assert s[p..p + 15] == s[p..p + 13] + ": ";
    HeaderAtNoNewline(s, p, 13);
    IndexFromSkip(s, p, p + 15, '\n');
  }

  /** Which header match an "X-Auth...: " line gets: the \S* run ends just after the colon. */
  lemma XAuthMatch(s: string, p: nat, n: nat)
    requires HeaderAt(s, p, n) && s[p..p + n] != "Authorization"
    ensures HeaderMatchAt(s, p) == Some(Match(IndexFrom(s, p, '\n'), s[p..p + n] + ": " + Placeholder))
  {
    var name := s[p..p + n];
    assert s[p] == name[..6][0] == 'X';
    assert s[p..p + 6] == name[..6];
    forall j | p + 6 <= j < p + n ensures !IsSpace(s[j]) {
      assert s[j] == name[j - p];
    }
    assert NonSpaceEnd(s, p + 6) == p + n + 1;
    assert StartsAt(s, p, "X-Auth") && !StartsAt(s, p, "Authorization: ");
    XAuthBranch(s, p, p + n + 1);
    HeaderAtNoNewline(s, p, n);
    IndexFromSkip(s, p, p + n + 2, '\n');
  }

  /** At a line start holding "X-Auth", the match is decided by where the name's run of non-space ends. */
  lemma XAuthBranch(s: string, p: nat, q: nat)
    requires p <= |s| && LineStart(s, p) && !StartsAt(s, p, "Authorization: ")
    requires StartsAt(s, p, "X-Auth") && q == NonSpaceEnd(s, p + 6)
    requires p + 6 < q < |s| && s[q - 1] == ':' && s[q] == ' '
    ensures HeaderMatchAt(s, p) == Some(Match(IndexFrom(s, q + 1, '\n'), s[p..q - 1] + ": " + Placeholder))
  {
  }

  /** The match of a line that starts with a header name of n characters and ": ". */
  lemma HeaderMatchOf(s: string, p: nat, n: nat)
    requires HeaderAt(s, p, n)
    ensures HeaderMatchAt(s, p) == Some(Match(IndexFrom(s, p, '\n'), s[p..p + n] + ": " + Placeholder))
  {
    if s[p..p + n] == "Authorization" {
      AuthorizationMatch(s, p);
    } else {
      XAuthMatch(s, p, n);
    }
  }

  /**
   * The header matcher accepts exactly the lines that start with a header name and ": ",
   * keeps that name, and replaces everything up to the end of the line.
   */
  lemma HeaderMatchAtSpec(s: string, p: nat)
    requires p <= |s|
    ensures HeaderMatchAt(s, p).Some? <==> exists n :: HeaderAt(s, p, n)
    ensures forall n :: HeaderAt(s, p, n) ==>
      HeaderMatchAt(s, p) == Some(Match(IndexFrom(s, p, '\n'), s[p..p + n] + ": " + Placeholder))
  {
    if HeaderMatchAt(s, p).Some? {
      if StartsAt(s, p, "Authorization: ") {
        assert s[p..p + 13] == s[p..p + 15][..13];
        assert HeaderAt(s, p, 13);
      } else {
        var q := NonSpaceEnd(s, p + 6);
        var name := s[p..q - 1];
        assert name[..6] == s[p..p + 6];
        forall k | 6 <= k < |name| ensures !IsSpace(name[k]) {
          assert name[k] == s[p + k];
        }
        assert HeaderAt(s, p, q - 1 - p);
      }
    }
    forall n | HeaderAt(s, p, n)
      ensures HeaderMatchAt(s, p) == Some(Match(IndexFrom(s, p, '\n'), s[p..p + n] + ": " + Placeholder))
    {
      HeaderMatchOf(s, p, n);
    }
  }

  // ---------------------------------------------------------------------------------------
  // Query pass: (?i)(password|token|apikey|passcode)=[^&]*(&|$)
  //   replaced by  $1=[PRIVATE DATA HIDDEN]$2

  const QueryKeys: seq<string> := ["password", "token", "apikey", "passcode"]

  /** key occurs at p, in any letter case, followed by '='. */
  predicate KeyEqualsAt(s: string, p: nat, key: string) {
    FoldAt(s, p, key) && p + |key| < |s| && s[p + |key|] == '='
  }

  /** s[p..] is key followed by '=', key one of QueryKeys in any letter case. */
  predicate QueryKeyAt(s: string, p: nat, key: string) {
    key in QueryKeys && KeyEqualsAt(s, p, key)
  }

  /** The first of keys, in the order of the alternation, that occurs at p followed by '='. */
  function FirstKeyAt(s: string, p: nat, keys: seq<string>): (r: Option<nat>)
    ensures r.Some? ==> exists key :: key in keys && |key| == r.value && KeyEqualsAt(s, p, key)
    ensures r.None? ==> forall key :: key in keys ==> !KeyEqualsAt(s, p, key)
  {
    if keys == [] then None
    else if KeyEqualsAt(s, p, keys[0]) then Some(|keys[0]|)
    else
      var r := FirstKeyAt(s, p, keys[1..]);
      assert forall key :: key in keys ==> key == keys[0] || key in keys[1..];
      r
  }

  /** The match of `=[^&]*(&|$)` after a key of n characters at p: up to and including the next '&', else to the end. */
  function QueryValueMatch(s: string, p: nat, n: nat): (m: Match)
    requires p + n < |s|
    ensures p + n < m.end <= |s|
    ensures var a := IndexFrom(s, p + n + 1, '&');
      && m.end == (if a < |s| then a + 1 else |s|)
      && m.replacement == s[p..p + n] + "=" + Placeholder + s[a..m.end]
  {
    var a := IndexFrom(s, p + n + 1, '&');
    if a < |s| then
      assert s[a..a + 1] == "&";
      Match(a + 1, s[p..p + n] + "=" + Placeholder + "&")
    else
      assert s[a..|s|] == "";
      Match(|s|, s[p..p + n] + "=" + Placeholder)
  }

  function QueryMatchAt(s: string, p: nat): (r: Option<Match>)
    requires p <= |s|
    ensures r.Some? ==> p < r.value.end <= |s|
  {
    match FirstKeyAt(s, p, QueryKeys)
    case None => None
    case Some(n) => Some(QueryValueMatch(s, p, n))
  }

  /** Two keys that both occur at p followed by '=' have the same length: '=' is no letter. */
  lemma QueryKeysAgree(s: string, p: nat, k1: string, k2: string)
    requires QueryKeyAt(s, p, k1) && QueryKeyAt(s, p, k2)
    ensures |k1| == |k2|
  {
    assert |k1| < |k2| ==> FoldEq(s[p + |k1|], k2[|k1|]);
    assert |k2| < |k1| ==> FoldEq(s[p + |k2|], k1[|k2|]);
  }

  /** Whichever key occurs at p followed by '=', the query matcher uses its length. */
  lemma QueryMatchAtKey(s: string, p: nat, key: string)
    requires QueryKeyAt(s, p, key)
    ensures QueryMatchAt(s, p) == Some(QueryValueMatch(s, p, |key|))
  {
    var r := FirstKeyAt(s, p, QueryKeys);
    assert KeyEqualsAt(s, p, key);
    var key' :| key' in QueryKeys && |key'| == r.value && KeyEqualsAt(s, p, key');
    QueryKeysAgree(s, p, key, key');
  }

  /**
   * The query matcher accepts exactly a key followed by '=', and then matches the value after
   * that key: up to and including the next '&', or up to the end of the whole text.
   */
  lemma QueryMatchAtSpec(s: string, p: nat)
    requires p <= |s|
    ensures QueryMatchAt(s, p).Some? <==> exists key :: QueryKeyAt(s, p, key)
    ensures forall key :: QueryKeyAt(s, p, key) ==> QueryMatchAt(s, p) == Some(QueryValueMatch(s, p, |key|))
  {
    if QueryMatchAt(s, p).Some? {
      var r := FirstKeyAt(s, p, QueryKeys);
      var key :| key in QueryKeys && |key| == r.value && KeyEqualsAt(s, p, key);
      assert QueryKeyAt(s, p, key);
    }
    forall key | QueryKeyAt(s, p, key)
      ensures QueryMatchAt(s, p) == Some(QueryValueMatch(s, p, |key|))
    {
      QueryMatchAtKey(s, p, key);
    }
  }

  // ---------------------------------------------------------------------------------------
  // JSON pass: (?i)"([^"]*(password|token|apikey)[^"_]*)":\s*"[^\,]*"
  //   replaced by  "$1":"[PRIVATE DATA HIDDEN]"

  /** Within s[..hi], the word w occurs at i in any letter case and no '_' follows it before hi. */
  predicate WordAt(s: string, i: nat, hi: nat, w: string) {
    i + |w| <= hi && FoldAt(s, i, w) && NoneIn(s, i + |w|, hi, '_')
  }

  /** Within s[..hi], one of the key words password, token, apikey occurs at i as WordAt says. */
  predicate KeyWordAt(s: string, i: nat, hi: nat) {
    WordAt(s, i, hi, "password") || WordAt(s, i, hi, "token") || WordAt(s, i, hi, "apikey")
  }

  /**
   * `[^"]*(password|token|apikey)[^"_]*` accepts a key holding no '"' exactly when, at some
   * position, a key word occurs that no '_' follows.
   */
  ghost predicate RedactableKey(key: string) {
    exists i: nat :: KeyWordAt(key, i, |key|)
  }

  /** Whether some position in [i, hi) of s starts a key word that no '_' follows before hi. */
  function RedactableFrom(s: string, i: nat, hi: nat): bool
    requires i <= hi <= |s|
    decreases hi - i
  {
    if i == hi then false
    else if KeyWordAt(s, i, hi) then true
    else RedactableFrom(s, i + 1, hi)
  }

  /** A key word found below hi starts before hi. */
  lemma KeyWordBound(s: string, j: nat, hi: nat)
    ensures KeyWordAt(s, j, hi) ==> j < hi
  {
    assert |"password"| == 8 && |"token"| == 5 && |"apikey"| == 6;
  }

  /** Some position at or after i starts a key word that no '_' follows before hi. */
  ghost predicate KeyWordFrom(s: string, i: nat, hi: nat) {
    exists j: nat :: i <= j && KeyWordAt(s, j, hi)
  }

  /** A key word occurs from i on exactly when it occurs at i or from i + 1 on. */
  lemma KeyWordFromStep(s: string, i: nat, hi: nat)
    ensures KeyWordFrom(s, i, hi) == (KeyWordAt(s, i, hi) || KeyWordFrom(s, i + 1, hi))
  {
    if KeyWordFrom(s, i, hi) {
      var j: nat :| i <= j && KeyWordAt(s, j, hi);
      if j != i {
        assert i + 1 <= j;
      }
    }
    if KeyWordFrom(s, i + 1, hi) {
      var j: nat :| i + 1 <= j && KeyWordAt(s, j, hi);
      assert i <= j;
    }
  }

  /** One step of RedactableFrom's scan. */
  lemma RedactableFromStep(s: string, i: nat, hi: nat)
    requires i < hi <= |s|
    ensures RedactableFrom(s, i, hi) == (KeyWordAt(s, i, hi) || RedactableFrom(s, i + 1, hi))
  {
  }

  /** RedactableFrom(s, i, hi) finds a key word at or after i with no '_' after it before hi. */
  lemma {:induction false} RedactableFromSpec(s: string, i: nat, hi: nat)
    requires i <= hi <= |s|
    ensures RedactableFrom(s, i, hi) <==> KeyWordFrom(s, i, hi)
    decreases hi - i
  {
    if i == hi {
      forall j: nat | i <= j ensures !KeyWordAt(s, j, hi) {
        KeyWordBound(s, j, hi);
      }
    } else {
      RedactableFromSpec(s, i + 1, hi);
      KeyWordFromStep(s, i, hi);
      RedactableFromStep(s, i, hi);
    }
  }

  /** A word is found in the key s[lo..hi] exactly where it is found in s between lo and hi. */
  lemma WordAtSlice(s: string, lo: nat, hi: nat, i: nat, w: string)
    requires lo <= hi <= |s|
    ensures WordAt(s[lo..hi], i, hi - lo, w) <==> WordAt(s, lo + i, hi, w)
  {
    var key := s[lo..hi];
    if i + |w| <= hi - lo {
      assert FoldAt(key, i, w) <==> FoldAt(s, lo + i, w) by {
        forall k | i <= k < i + |w| ensures key[k] == s[lo + k] {}
      }
      assert NoneIn(key, i + |w|, hi - lo, '_') <==> NoneIn(s, lo + i + |w|, hi, '_') by {
        forall k | i + |w| <= k < hi - lo ensures key[k] == s[lo + k] {}
      }
    }
  }

  /** A key word is found in the key s[lo..hi] exactly where it is found in s between lo and hi. */
  lemma KeyWordAtSlice(s: string, lo: nat, hi: nat, i: nat)
    requires lo <= hi <= |s|
    ensures KeyWordAt(s[lo..hi], i, hi - lo) <==> KeyWordAt(s, lo + i, hi)
  {
    WordAtSlice(s, lo, hi, i, "password");
    WordAtSlice(s, lo, hi, i, "token");
    WordAtSlice(s, lo, hi, i, "apikey");
  }

  /** RedactableFrom over the key's position in s decides RedactableKey of the key text. */
  lemma RedactableFromDecides(s: string, lo: nat, hi: nat)
    requires lo <= hi <= |s|
    ensures RedactableFrom(s, lo, hi) <==> RedactableKey(s[lo..hi])
  {
    RedactableFromSpec(s, lo, hi);
    if RedactableFrom(s, lo, hi) {
      var j: nat :| lo <= j && KeyWordAt(s, j, hi);
      RedactableFromFindsKey(s, lo, hi, j);
    }
    if RedactableKey(s[lo..hi]) {
      RedactableKeyFound(s, lo, hi);
    }
  }

  /** A key word RedactableFrom finds between lo and hi is a key word of s[lo..hi]. */
  lemma RedactableFromFindsKey(s: string, lo: nat, hi: nat, j: nat)
    requires lo <= j && hi <= |s| && KeyWordAt(s, j, hi)
    ensures RedactableKey(s[lo..hi])
  {
    KeyWordAtSlice(s, lo, hi, j - lo);
    assert KeyWordAt(s[lo..hi], j - lo, hi - lo);
  }

  /** A key word of s[lo..hi] is a key word of s between lo and hi. */
  lemma RedactableKeyFound(s: string, lo: nat, hi: nat)
    requires lo <= hi <= |s| && RedactableKey(s[lo..hi])
    ensures KeyWordFrom(s, lo, hi)
  {
    var i: nat :| KeyWordAt(s[lo..hi], i, hi - lo);
    KeyWordAtSlice(s, lo, hi, i);
    assert lo <= lo + i && KeyWordAt(s, lo + i, hi);
  }

  /**
   * `"([^"]*…[^"_]*)"` at p: the key runs from p + 1 to the first '"' after p, at q, and is
   * redactable.
   */
  ghost predicate JsonKeyAt(s: string, p: nat, q: nat) {
    && p < q < |s|
    && s[p] == '"' && s[q] == '"' && NoneIn(s, p + 1, q, '"')
    && RedactableKey(s[p + 1..q])
  }

  /**
   * `\s*"[^\,]*"` from i as the greedy matcher takes it: white space up to the opening '"' at
   * w, and the closing '"' at j, the LAST '"' before the next ','.
   */
  predicate JsonValueAt(s: string, i: nat, w: nat, j: nat) {
    && i <= w < j < |s|
    && (forall k :: i <= k < w ==> IsSpace(s[k]))
    && s[w] == '"'
    && s[j] == '"' && NoneIn(s, w + 1, j, ',')
    && (forall k :: j < k < |s| && s[k] == '"' ==> !NoneIn(s, j + 1, k, ','))
  }

  /** The match the JSON pattern prefers at p: a quoted redactable key, ':', then the value. */
  ghost predicate JsonFieldAt(s: string, p: nat, q: nat, w: nat, j: nat) {
    JsonKeyAt(s, p, q) && q + 1 < |s| && s[q + 1] == ':' && JsonValueAt(s, q + 2, w, j)
  }

  /** The text `"$1":"[PRIVATE DATA HIDDEN]"` expands to for the key text key. */
  function JsonReplacement(key: string): string {
    "\"" + key + "\":\"" + Placeholder + "\""
  }

  /** `\s*"[^\,]*"` from i: the index of the value's closing quote, if it matches. */
  function JsonValueEnd(s: string, i: nat): (r: Option<nat>)
    requires i <= |s|
    ensures r.Some? ==> i < r.value < |s|
  {
    var w := SpaceEnd(s, i);
    if w < |s| && s[w] == '"' then LastIndexIn(s, w + 1, IndexFrom(s, w + 1, ','), '"')
    else None
  }

  /** The match for the key quoted between p and q, completed by the value after the ':' at q + 1. */
  function JsonValueMatch(s: string, p: nat, q: nat): (r: Option<Match>)
    requires p < q && q + 2 <= |s|
    ensures r.Some? ==> q + 2 < r.value.end <= |s|
  {
    match JsonValueEnd(s, q + 2)
    case Some(j) => Some(Match(j + 1, JsonReplacement(s[p + 1..q])))
    case None => None
  }

  function JsonMatchAt(s: string, p: nat): (r: Option<Match>)
    requires p <= |s|
    ensures r.Some? ==> p < r.value.end <= |s|
  {
    if p == |s| || s[p] != '"' then None
    else
      var q := IndexFrom(s, p + 1, '"');
      if q + 1 < |s| && s[q + 1] == ':' && RedactableFrom(s, p + 1, q) then JsonValueMatch(s, p, q)
      else None
  }

  /** What JsonValueEnd finds is a value as the greedy matcher takes it. */
  lemma JsonValueEndSound(s: string, i: nat)
    requires i <= |s| && JsonValueEnd(s, i).Some?
    ensures JsonValueAt(s, i, SpaceEnd(s, i), JsonValueEnd(s, i).value)
  {
    var w := SpaceEnd(s, i);
    var c := IndexFrom(s, w + 1, ',');
    var j := JsonValueEnd(s, i).value;
    forall k | j < k < |s| && s[k] == '"' ensures !NoneIn(s, j + 1, k, ',') {
      assert c < k ==> s[c] == ',';
    }
  }

  /** Every value the greedy matcher takes is the one JsonValueEnd finds. */
  lemma JsonValueEndComplete(s: string, i: nat, w: nat, j: nat)
    requires JsonValueAt(s, i, w, j)
    ensures JsonValueEnd(s, i) == Some(j)
  {
    assert SpaceEnd(s, i) == w;
    var c := IndexFrom(s, w + 1, ',');
    var l := LastIndexIn(s, w + 1, c, '"');
    assert l.Some? && l.value >= j;
  }

  /** The key's closing quote is the first '"' after p, and RedactableFrom accepts the key. */
  lemma {:induction false} JsonKeyDetermined(s: string, p: nat, q: nat)
    requires JsonKeyAt(s, p, q)
    ensures IndexFrom(s, p + 1, '"') == q && RedactableFrom(s, p + 1, q)
  {
    var key := s[p + 1..q];
    assert p + 1 <= q < |s| && s[q] == '"' && NoneIn(s, p + 1, q, '"') && RedactableKey(key);
    IndexFromIs(s, p + 1, q, '"');
    RedactableFromDecides(s, p + 1, q);
  }

  /** Past a quoted redactable key and its ':', JsonMatchAt is decided by the value. */
  lemma {:induction false} JsonMatchAtKey(s: string, p: nat, q: nat)
    requires p < |s| && s[p] == '"' && IndexFrom(s, p + 1, '"') == q
    requires q + 1 < |s| && s[q + 1] == ':' && RedactableFrom(s, p + 1, q)
    ensures JsonMatchAt(s, p) == JsonValueMatch(s, p, q)
  {
  }

  /** A value closed at j completes the key's match up to j. */
  lemma {:induction false} JsonValueMatchIs(s: string, p: nat, q: nat, j: nat)
    requires p < q && q + 2 <= |s| && JsonValueEnd(s, q + 2) == Some(j)
    ensures JsonValueMatch(s, p, q) == Some(Match(j + 1, JsonReplacement(s[p + 1..q])))
  {
  }

  /** JsonMatchAt in terms of the key's closing quote q and the value's closing quote j. */
  lemma {:induction false} JsonMatchAtParts(s: string, p: nat, q: nat, j: nat)
    requires p < |s| && s[p] == '"' && IndexFrom(s, p + 1, '"') == q
    requires q + 1 < |s| && s[q + 1] == ':' && RedactableFrom(s, p + 1, q)
    requires JsonValueEnd(s, q + 2) == Some(j)
    ensures JsonMatchAt(s, p) == Some(Match(j + 1, JsonReplacement(s[p + 1..q])))
  {
    JsonMatchAtKey(s, p, q);
    JsonValueMatchIs(s, p, q, j);
  }

  /** What a JSON match needs: a quote at p, and after the key's closing quote a ':' and a value. */
  lemma {:induction false} JsonMatchAtNeeds(s: string, p: nat)
    requires p <= |s| && JsonMatchAt(s, p).Some?
    ensures p < |s| && s[p] == '"'
    ensures var q := IndexFrom(s, p + 1, '"');
      && q + 1 < |s| && s[q + 1] == ':' && RedactableFrom(s, p + 1, q)
      && JsonMatchAt(s, p) == JsonValueMatch(s, p, q)
      && JsonValueEnd(s, q + 2).Some?
  {
  }

  /** A key the matcher accepts is a key as JsonKeyAt describes it. */
  lemma {:induction false} JsonKeyFound(s: string, p: nat)
    requires p < |s| && s[p] == '"'
    requires IndexFrom(s, p + 1, '"') < |s| && RedactableFrom(s, p + 1, IndexFrom(s, p + 1, '"'))
    ensures JsonKeyAt(s, p, IndexFrom(s, p + 1, '"'))
  {
    RedactableFromDecides(s, p + 1, IndexFrom(s, p + 1, '"'));
  }

  /** A JSON match the matcher finds is a key-value field as JsonFieldAt describes it. */
  lemma {:induction false} JsonMatchFound(s: string, p: nat)
    requires p <= |s| && JsonMatchAt(s, p).Some?
    ensures exists q: nat, w: nat, j: nat :: JsonFieldAt(s, p, q, w, j)
  {
    JsonMatchAtNeeds(s, p);
    JsonFieldFromParts(s, p, IndexFrom(s, p + 1, '"'));
  }

  /** The parts the matcher checks make up a field as JsonFieldAt describes it. */
  lemma JsonFieldFromParts(s: string, p: nat, q: nat)
    requires p < |s| && s[p] == '"' && q == IndexFrom(s, p + 1, '"')
    requires q + 1 < |s| && s[q + 1] == ':' && RedactableFrom(s, p + 1, q)
    requires JsonValueEnd(s, q + 2).Some?
    ensures JsonFieldAt(s, p, q, SpaceEnd(s, q + 2), JsonValueEnd(s, q + 2).value)
  {
    JsonValueEndSound(s, q + 2);
    JsonKeyFound(s, p);
  }

  /** The parts of a JSON field match are the ones the matcher computes. */
  lemma {:induction false} JsonFieldDetermined(s: string, p: nat, q: nat, w: nat, j: nat)
    requires JsonFieldAt(s, p, q, w, j)
    ensures JsonMatchAt(s, p) == Some(Match(j + 1, JsonReplacement(s[p + 1..q])))
  {
    JsonKeyDetermined(s, p, q);
    JsonValueEndComplete(s, q + 2, w, j);
    JsonMatchAtParts(s, p, q, j);
  }

  /**
   * The JSON matcher accepts exactly a quoted redactable key, ':', optional white space and a
   * quoted value without commas; it keeps the key verbatim, drops the white space and
   * replaces the value by the quoted placeholder.
   */
  lemma {:induction false} JsonMatchAtSpec(s: string, p: nat)
    requires p <= |s|
    ensures JsonMatchAt(s, p).Some? <==> exists q: nat, w: nat, j: nat :: JsonFieldAt(s, p, q, w, j)
    ensures forall q: nat, w: nat, j: nat :: JsonFieldAt(s, p, q, w, j) ==>
      JsonMatchAt(s, p) == Some(Match(j + 1, JsonReplacement(s[p + 1..q])))
  {
    if JsonMatchAt(s, p).Some? {
      JsonMatchFound(s, p);
    }
    forall q: nat, w: nat, j: nat | JsonFieldAt(s, p, q, w, j)
      ensures JsonMatchAt(s, p) == Some(Match(j + 1, JsonReplacement(s[p + 1..q])))
    {
      JsonFieldDetermined(s, p, q, w, j);
    }
  }

  // ---------------------------------------------------------------------------------------
  // regexp.ReplaceAllString for the three patterns

  function MatchAt(pat: Pattern, s: string, p: nat): (r: Option<Match>)
    requires p <= |s|
    ensures r.Some? ==> p < r.value.end <= |s|
  {
    match pat
    case Header => HeaderMatchAt(s, p)
    case Query => QueryMatchAt(s, p)
    case Json => JsonMatchAt(s, p)
  }

  /** t lists, for each position of s, a non-empty match starting there, if any. */
  predicate ValidTable(s: string, t: seq<Option<Match>>) {
    |t| == |s| && forall k :: 0 <= k < |t| && t[k].Some? ==> k < t[k].value.end <= |s|
  }

  /**
   * The match the pattern prefers at each position of s. Go matches against the original
   * text, never against replaced output, so these are the only candidates the scan sees.
   */
  function MatchTable(pat: Pattern, s: string): (t: seq<Option<Match>>)
    ensures ValidTable(s, t)
  {
    seq(|s|, k requires 0 <= k < |s| => MatchAt(pat, s, k))
  }

  /** The table holds, at each position, the match the pattern prefers there. */
  lemma MatchTableAt(pat: Pattern, s: string, k: nat)
    requires k < |s|
    ensures MatchTable(pat, s)[k] == MatchAt(pat, s, k)
  {
  }

  /**
   * The scan of ReplaceAllString over s[i..]: at a position where a match starts, its
   * replacement is emitted and the scan resumes at its end; elsewhere the character is
   * copied. No pattern here matches the empty text, so every match found is replaced and
   * nothing is tried at |s|.
   */
  function ReplaceFrom(s: string, t: seq<Option<Match>>, i: nat): string
    requires ValidTable(s, t) && i <= |s|
    decreases |s| - i
  {
    if i == |s| then ""
    else match t[i]
      case Some(m) => m.replacement + ReplaceFrom(s, t, m.end)
      case None => [s[i]] + ReplaceFrom(s, t, i + 1)
  }

  function ReplaceAll(pat: Pattern, s: string): string {
    ReplaceFrom(s, MatchTable(pat, s), 0)
  }

  function HeaderPass(s: string): string { ReplaceAll(Header, s) }
  function QueryPass(s: string): string { ReplaceAll(Query, s) }
  function JsonPass(s: string): string { ReplaceAll(Json, s) }

  /** trace.Sanitize: the header pass, then the query pass, then the JSON pass. */
  function Sanitize(input: string): string {
    JsonPass(QueryPass(HeaderPass(input)))
  }

  // ---------------------------------------------------------------------------------------
  // What the scan does: the text before the leftmost match is kept, the match is replaced,
  // and the scan goes on after it.

  /** Positions where no match starts are copied unchanged. */
  lemma {:induction false} ReplaceFromSkips(s: string, t: seq<Option<Match>>, i: nat, j: nat)
    requires ValidTable(s, t) && i <= j <= |s|
    requires forall k :: i <= k < j ==> t[k].None?
    ensures ReplaceFrom(s, t, i) == s[i..j] + ReplaceFrom(s, t, j)
    decreases j - i
  {
    if i < j {
      var rest := ReplaceFrom(s, t, j);
      ReplaceFromStep(s, t, i);
      assert t[i].None?;
      assert Next(s, t, i) == i + 1 && Emit(s, t, i) == [s[i]];
      ReplaceFromSkips(s, t, i + 1, j);
      assert s[i..j] == [s[i]] + s[i + 1..j];
      assert [s[i]] + (s[i + 1..j] + rest) == s[i..j] + rest;
    } else {
      assert s[i..j] == [];
    }
  }

  /** The leftmost match at or after i is replaced, and the text before it is kept. */
  lemma LeftmostMatchReplaced(pat: Pattern, s: string, i: nat, j: nat)
    requires i <= j < |s|
    requires forall k :: i <= k < j ==> MatchAt(pat, s, k).None?
    requires MatchAt(pat, s, j).Some?
    ensures ReplaceFrom(s, MatchTable(pat, s), i) ==
      s[i..j] + MatchAt(pat, s, j).value.replacement
      + ReplaceFrom(s, MatchTable(pat, s), MatchAt(pat, s, j).value.end)
  {
    forall k | i <= k < j ensures MatchTable(pat, s)[k].None? {
      MatchTableAt(pat, s, k);
    }
    ReplaceFromSkips(s, MatchTable(pat, s), i, j);
    MatchTableAt(pat, s, j);
  }

  /** From a position on which the pattern matches nowhere, the rest is copied unchanged. */
  lemma NoMatchUnchanged(pat: Pattern, s: string, i: nat)
    requires i <= |s|
    requires forall k :: i <= k < |s| ==> MatchAt(pat, s, k).None?
    ensures ReplaceFrom(s, MatchTable(pat, s), i) == s[i..]
  {
    forall k | i <= k < |s| ensures MatchTable(pat, s)[k].None? {
      MatchTableAt(pat, s, k);
    }
    ReplaceFromSkips(s, MatchTable(pat, s), i, |s|);
  }

  /**
   * If every match replaces text holding c some number of times by text holding c the same
   * number of times, the scan keeps the number of c's.
   */
  lemma {:induction false} ReplaceFromKeepsCount(s: string, t: seq<Option<Match>>, i: nat, c: char)
    requires ValidTable(s, t) && i <= |s|
    requires forall k :: 0 <= k < |s| && t[k].Some? ==>
               Count(s[k..t[k].value.end], c) == Count(t[k].value.replacement, c)
    ensures Count(ReplaceFrom(s, t, i), c) == Count(s[i..], c)
    decreases |s| - i
  {
    if i < |s| {
      match t[i]
      case Some(m) =>
        ReplaceFromKeepsCount(s, t, m.end, c);
        CountAppend(m.replacement, ReplaceFrom(s, t, m.end), c);
        assert s[i..] == s[i..m.end] + s[m.end..];
        CountAppend(s[i..m.end], s[m.end..], c);
      case None =>
        ReplaceFromKeepsCount(s, t, i + 1, c);
        CountAppend([s[i]], ReplaceFrom(s, t, i + 1), c);
        assert s[i..] == [s[i]] + s[i + 1..];
        CountAppend([s[i]], s[i + 1..], c);
    }
  }

  // ---------------------------------------------------------------------------------------
  // What each pass keeps: the line structure, the '&' separators of a query string, and the
  // ',' separators of a JSON text.

  /** A stretch without c holds c zero times. */
  lemma NoneInCount(s: string, lo: nat, hi: nat, c: char)
    requires lo <= hi <= |s| && NoneIn(s, lo, hi, c)
    ensures Count(s[lo..hi], c) == 0
  {
    CountAbsent(s[lo..hi], c);
  }

  /** The placeholder holds none of the separators the passes keep. */
  lemma PlaceholderSeparators()
    ensures '\n' !in Placeholder && '&' !in Placeholder && ',' !in Placeholder
  {
  }

  /** A header match is the one HeaderMatchAtSpec describes, for some header name length n. */
  lemma HeaderMatchShape(s: string, p: nat)
    requires p <= |s| && HeaderMatchAt(s, p).Some?
    ensures exists n ::
      && HeaderAt(s, p, n)
      && HeaderMatchAt(s, p).value == Match(IndexFrom(s, p, '\n'), s[p..p + n] + ": " + Placeholder)
  {
    HeaderMatchAtSpec(s, p);
  }

  /** A header line's match spans no newline and its replacement holds none. */
  lemma HeaderLineNoNewline(s: string, p: nat, n: nat)
    requires HeaderAt(s, p, n)
    ensures Count(s[p..IndexFrom(s, p, '\n')], '\n') == 0
    ensures Count(s[p..p + n] + ": " + Placeholder, '\n') == 0
  {
    HeaderAtNoNewline(s, p, n);
    NoneInCount(s, p, IndexFrom(s, p, '\n'), '\n');
    PlaceholderSeparators();
    assert '\n' !in s[p..p + n];
    CountAbsent(s[p..p + n] + ": " + Placeholder, '\n');
  }

  /** A header match spans no newline and its replacement holds none. */
  lemma HeaderMatchNoNewline(s: string, p: nat)
    requires p <= |s| && HeaderMatchAt(s, p).Some?
    ensures var m := HeaderMatchAt(s, p).value;
      Count(s[p..m.end], '\n') == 0 && Count(m.replacement, '\n') == 0
  {
    HeaderMatchShape(s, p);
    var n :| HeaderAt(s, p, n)
      && HeaderMatchAt(s, p).value == Match(IndexFrom(s, p, '\n'), s[p..p + n] + ": " + Placeholder);
    HeaderLineNoNewline(s, p, n);
  }

  /** The header pass keeps every newline: it rewrites lines, never joins or splits them. */
  lemma HeaderPassKeepsNewlines(s: string)
    ensures Count(HeaderPass(s), '\n') == Count(s, '\n')
  {
    var t := MatchTable(Header, s);
    forall k | 0 <= k < |s| && t[k].Some?
      ensures Count(s[k..t[k].value.end], '\n') == Count(t[k].value.replacement, '\n')
    {
      MatchTableAt(Header, s, k);
      HeaderMatchNoNewline(s, k);
    }
    ReplaceFromKeepsCount(s, t, 0, '\n');
    assert s[0..] == s;
  }

  /** The value match after a key and its '=' holds as many '&' as its replacement. */
  lemma QueryValueKeepsAmpersands(s: string, p: nat, n: nat)
    requires p + n < |s| && s[p + n] == '='
    ensures var m := QueryValueMatch(s, p, n);
      Count(s[p..m.end], '&') == Count(m.replacement, '&')
  {
    var a := IndexFrom(s, p + n + 1, '&');
    var m := QueryValueMatch(s, p, n);
    var head, value := s[p..p + n] + "=", s[p + n + 1..a];
    var tail := if a < |s| then "&" else "";
    assert '&' !in value;
    PlaceholderSeparators();
    assert m.replacement == head + Placeholder + tail;
    assert s[p..p + n + 1] == head;
    assert s[a..m.end] == tail;
    SliceSplit(s, p, p + n + 1, a);
    SliceSplit(s, p, a, m.end);
    SwapMiddleKeepsCount(head, value, Placeholder, tail, '&');
  }

  /** Swapping a middle part for another, neither holding c, keeps the number of c's. */
  lemma SwapMiddleKeepsCount(head: string, mid1: string, mid2: string, tail: string, c: char)
    requires c !in mid1 && c !in mid2
    ensures Count(head + mid1 + tail, c) == Count(head + mid2 + tail, c)
  {
    CountAppend(head + mid1, tail, c);
    CountAppend(head + mid2, tail, c);
    CountAppendAbsent(head, mid1, c);
    CountAppendAbsent(head, mid2, c);
  }

  /** A query match holds as many '&' as its replacement: at most the one that ends it. */
  lemma QueryMatchKeepsAmpersands(s: string, p: nat)
    requires p <= |s| && QueryMatchAt(s, p).Some?
    ensures var m := QueryMatchAt(s, p).value;
      Count(s[p..m.end], '&') == Count(m.replacement, '&')
  {
    var n := FirstKeyAt(s, p, QueryKeys).value;
    QueryValueKeepsAmpersands(s, p, n);
  }

  /** The query pass keeps every '&', so the parameters of a query string stay apart. */
  lemma QueryPassKeepsAmpersands(s: string)
    ensures Count(QueryPass(s), '&') == Count(s, '&')
  {
    var t := MatchTable(Query, s);
    forall k | 0 <= k < |s| && t[k].Some?
      ensures Count(s[k..t[k].value.end], '&') == Count(t[k].value.replacement, '&')
    {
      MatchTableAt(Query, s, k);
      QueryMatchKeepsAmpersands(s, k);
    }
    ReplaceFromKeepsCount(s, t, 0, '&');
    assert s[0..] == s;
  }

  /** A JSON field holds as many ',' as its replacement: those of the key it keeps. */
  lemma JsonFieldKeepsCommas(s: string, p: nat, q: nat, w: nat, j: nat)
    requires JsonFieldAt(s, p, q, w, j)
    ensures Count(s[p..j + 1], ',') == Count(JsonReplacement(s[p + 1..q]), ',')
  {
    assert p < q <= j < |s| && s[p] == '"' && NoneIn(s, q, j + 1, ',');
    FieldTextCommas(s, p, q, j);
    JsonReplacementCommas(s[p + 1..q]);
  }

  /** Text from a quote at p to j, with no ',' from q on, holds the ',' of s[p + 1..q] only. */
  lemma FieldTextCommas(s: string, p: nat, q: nat, j: nat)
    requires p < q <= j < |s| && s[p] == '"' && NoneIn(s, q, j + 1, ',')
    ensures Count(s[p..j + 1], ',') == Count(s[p + 1..q], ',')
  {
    assert ',' !in s[q..j + 1];
    SliceSplit(s, p, q, j + 1);
    CountAppendAbsent(s[p..q], s[q..j + 1], ',');
    SliceSplit(s, p, p + 1, q);
    CountAppend(s[p..p + 1], s[p + 1..q], ',');
    CountAbsent(s[p..p + 1], ',');
  }

  /** The JSON replacement holds the ',' of the key it keeps and no other. */
  lemma JsonReplacementCommas(key: string)
    ensures Count(JsonReplacement(key), ',') == Count(key, ',')
  {
    PlaceholderSeparators();
    CountAppendAbsent("\"" + key + "\":\"" + Placeholder, "\"", ',');
    CountAppendAbsent("\"" + key + "\":\"", Placeholder, ',');
    CountAppendAbsent("\"" + key, "\":\"", ',');
    CountAppend("\"", key, ',');
    CountAbsent("\"", ',');
  }

  /** A JSON match holds as many ',' as its replacement. */
  lemma JsonMatchKeepsCommas(s: string, p: nat)
    requires p <= |s| && JsonMatchAt(s, p).Some?
    ensures var m := JsonMatchAt(s, p).value;
      Count(s[p..m.end], ',') == Count(m.replacement, ',')
  {
    JsonMatchFound(s, p);
    var q: nat, w: nat, j: nat :| JsonFieldAt(s, p, q, w, j);
    JsonFieldDetermined(s, p, q, w, j);
    JsonFieldKeepsCommas(s, p, q, w, j);
  }

  /** The JSON pass keeps every ',', so the fields of a JSON text stay apart. */
  lemma JsonPassKeepsCommas(s: string)
    ensures Count(JsonPass(s), ',') == Count(s, ',')
  {
    var t := MatchTable(Json, s);
    forall k | 0 <= k < |s| && t[k].Some?
      ensures Count(s[k..t[k].value.end], ',') == Count(t[k].value.replacement, ',')
    {
      MatchTableAt(Json, s, k);
      JsonMatchKeepsCommas(s, k);
    }
    ReplaceFromKeepsCount(s, t, 0, ',');
    assert s[0..] == s;
  }

  // ---------------------------------------------------------------------------------------
  // Text that none of the patterns can match is returned unchanged.

  /** No line of s starts with Authorization or X-Auth. */
  predicate NoHeaderLine(s: string) {
    forall p :: 0 <= p < |s| && LineStart(s, p) ==> !StartsAt(s, p, "Authorization") && !StartsAt(s, p, "X-Auth")
  }

  /** None of the key words password, token, apikey, passcode occurs in s, in any letter case. */
  predicate NoKeyWord(s: string) {
    forall p :: 0 <= p <= |s| ==>
      !FoldAt(s, p, "password") && !FoldAt(s, p, "token") && !FoldAt(s, p, "apikey") && !FoldAt(s, p, "passcode")
  }

  /** A header match needs a line that starts with Authorization or X-Auth. */
  lemma HeaderMatchNeeds(s: string, p: nat)
    requires p <= |s|
    ensures HeaderMatchAt(s, p).Some? ==>
      p < |s| && LineStart(s, p) && (StartsAt(s, p, "Authorization") || StartsAt(s, p, "X-Auth"))
  {
    if HeaderMatchAt(s, p).Some? && StartsAt(s, p, "Authorization: ") {
      assert s[p..p + 13] == s[p..p + 15][..13];
    }
  }

  /** A query match needs a key word at its start. */
  lemma QueryMatchNeeds(s: string, p: nat)
    requires p <= |s|
    ensures QueryMatchAt(s, p).Some? ==>
      FoldAt(s, p, "password") || FoldAt(s, p, "token") || FoldAt(s, p, "apikey") || FoldAt(s, p, "passcode")
  {
    if QueryMatchAt(s, p).Some? {
      var n := FirstKeyAt(s, p, QueryKeys).value;
      var key :| key in QueryKeys && |key| == n && KeyEqualsAt(s, p, key);
      assert key == "password" || key == "token" || key == "apikey" || key == "passcode";
    }
  }

  /** A JSON match needs a key word inside its key. */
  lemma JsonMatchNeeds(s: string, p: nat)
    requires p <= |s|
    ensures JsonMatchAt(s, p).Some? ==>
      exists i :: p < i <= |s| && (FoldAt(s, i, "password") || FoldAt(s, i, "token") || FoldAt(s, i, "apikey"))
  {
    if JsonMatchAt(s, p).Some? {
      JsonMatchAtNeeds(s, p);
      var q := IndexFrom(s, p + 1, '"');
      RedactableFromSpec(s, p + 1, q);
      var i: nat :| p + 1 <= i && KeyWordAt(s, i, q);
    }
  }

  /**
   * Text in which no line starts with a header name and no key word occurs, in any letter
   * case, leaves all three passes, and so Sanitize, unchanged.
   */
  lemma CleanTextUnchanged(s: string)
    requires NoHeaderLine(s) && NoKeyWord(s)
    ensures HeaderPass(s) == s && QueryPass(s) == s && JsonPass(s) == s
    ensures Sanitize(s) == s
  {
    assert s[0..] == s;
    HeaderPassClean(s);
    forall k | 0 <= k < |s| ensures MatchAt(Query, s, k).None? {
      QueryMatchNeeds(s, k);
    }
    NoMatchUnchanged(Query, s, 0);
    forall k | 0 <= k < |s| ensures MatchAt(Json, s, k).None? {
      JsonMatchNeeds(s, k);
    }
    NoMatchUnchanged(Json, s, 0);
  }

  /** Text in which no line starts with Authorization or X-Auth leaves the header pass unchanged. */
  lemma HeaderPassClean(s: string)
    requires NoHeaderLine(s)
    ensures HeaderPass(s) == s
  {
    assert s[0..] == s;
    forall k | 0 <= k < |s| ensures MatchAt(Header, s, k).None? {
      HeaderMatchNeeds(s, k);
    }
    NoMatchUnchanged(Header, s, 0);
  }

  /** A query match needs a '=' after its start. */
  lemma QueryMatchEquals(s: string, p: nat)
    requires p <= |s|
    ensures QueryMatchAt(s, p).Some? ==> exists k :: p < k < |s| && s[k] == '='
  {
    if QueryMatchAt(s, p).Some? {
      var n := FirstKeyAt(s, p, QueryKeys).value;
      var key :| key in QueryKeys && |key| == n && KeyEqualsAt(s, p, key);
      QueryKeysNonEmpty(key);
      assert s[p + |key|] == '=';
    }
  }

  lemma QueryKeysNonEmpty(key: string)
    requires key in QueryKeys
    ensures |key| > 0
  {
  }

  /** Text without '=' leaves the query pass unchanged. */
  lemma QueryPassNeedsEquals(s: string)
    requires '=' !in s
    ensures QueryPass(s) == s
  {
    assert s[0..] == s;
    forall k | 0 <= k < |s| ensures MatchAt(Query, s, k).None? {
      QueryMatchEquals(s, k);
    }
    NoMatchUnchanged(Query, s, 0);
  }

  /** Text without ':' leaves the header pass unchanged: a header name is followed by ": ". */
  lemma HeaderPassNeedsColon(s: string)
    requires ':' !in s
    ensures HeaderPass(s) == s
  {
    assert s[0..] == s;
    forall k | 0 <= k < |s| ensures MatchAt(Header, s, k).None? {
      HeaderMatchAtSpec(s, k);
      forall n: nat ensures !HeaderAt(s, k, n) {
        if k + n < |s| {
          assert s[k + n] in s;
        }
      }
    }
    NoMatchUnchanged(Header, s, 0);
  }

  /**
   * Sanitize leaves text unchanged that has none of the characters its three patterns need:
   * ':' for a header, '=' for a query parameter, '"' for a JSON field.
   */
  lemma SanitizeNeedsDelimiters(s: string)
    requires ':' !in s && '=' !in s && '"' !in s
    ensures Sanitize(s) == s
  {
    HeaderPassNeedsColon(s);
    QueryPassNeedsEquals(s);
    JsonPassNeedsQuote(s);
  }

  /** Text without '"' leaves the JSON pass unchanged: a JSON match starts on a quote. */
  lemma JsonPassNeedsQuote(s: string)
    requires '"' !in s
    ensures JsonPass(s) == s
  {
    assert s[0..] == s;
    forall k | 0 <= k < |s| ensures MatchAt(Json, s, k).None? {
      assert s[k] in s;
    }
    NoMatchUnchanged(Json, s, 0);
  }


  // ---------------------------------------------------------------------------------------
  // The header pass works line by line.

  /**
   * What the header pass makes of one line: a line that starts with a header name and ": "
   * keeps both and the rest of it becomes the placeholder; any other line is kept.
   */
  ghost function HeaderLine(line: string): string {
    if exists n: nat :: HeaderAt(line, 0, n) then
      var n: nat :| HeaderAt(line, 0, n);
      line[..n] + ": " + Placeholder
    else line
  }

  /** A match moved d positions to the right. */
  function Shift(m: Option<Match>, d: nat): Option<Match> {
    match m
    case None => None
    case Some(x) => Some(Match(x.end + d, x.replacement))
  }

  /** IndexFrom in a suffix r of s, which starts at d, is IndexFrom in s moved by d. */
  lemma {:induction false} IndexFromShift(s: string, r: string, d: nat, i: nat, c: char)
    requires |s| == d + |r| && s[d..] == r && i <= |r|
    ensures IndexFrom(s, d + i, c) == d + IndexFrom(r, i, c)
    decreases |r| - i
  {
    if i < |r| {
      assert s[d + i] == r[i];
      if r[i] != c {
        IndexFromShift(s, r, d, i + 1, c);
      }
    }
  }

  /** NonSpaceEnd in a suffix r of s, which starts at d, is NonSpaceEnd in s moved by d. */
  lemma {:induction false} NonSpaceEndShift(s: string, r: string, d: nat, i: nat)
    requires |s| == d + |r| && s[d..] == r && i <= |r|
    ensures NonSpaceEnd(s, d + i) == d + NonSpaceEnd(r, i)
    decreases |r| - i
  {
    if i < |r| {
      assert s[d + i] == r[i];
      if !IsSpace(r[i]) {
        NonSpaceEndShift(s, r, d, i + 1);
      }
    }
  }

  /** A slice of the suffix r of s, which starts at d, is the slice of s moved by d. */
  lemma SuffixSlice(s: string, r: string, d: nat, i: nat, j: nat)
    requires |s| == d + |r| && s[d..] == r && i <= j <= |r|
    ensures s[d + i..d + j] == r[i..j]
  {
    forall t | 0 <= t < j - i ensures s[d + i..d + j][t] == r[i..j][t] {
      assert s[d + i + t] == s[d..][i + t];
    }
  }

  /** A literal occurs in the suffix r where it occurs in s, moved by d. */
  lemma StartsAtShift(s: string, r: string, d: nat, k: nat, w: string)
    requires |s| == d + |r| && s[d..] == r && k <= |r|
    ensures StartsAt(s, d + k, w) <==> StartsAt(r, k, w)
  {
    if k + |w| <= |r| {
      SuffixSlice(s, r, d, k, k + |w|);
    }
  }

  /** The "Authorization: " case of HeaderMatchShift. */
  lemma HeaderMatchShiftAuthorization(s: string, r: string, d: nat, k: nat)
    requires 0 < d && |s| == d + |r| && s[d..] == r && k <= |r|
    requires LineStart(s, d + k) && StartsAt(s, d + k, "Authorization: ") && StartsAt(r, k, "Authorization: ")
    ensures HeaderMatchAt(s, d + k) == Shift(Some(Match(IndexFrom(r, k + 15, '\n'), "Authorization: " + Placeholder)), d)
  {
    IndexFromShift(s, r, d, k + 15, '\n');
  }

  /** The "X-Auth" case of HeaderMatchShift: the name runs to the same place in both texts. */
  lemma HeaderMatchShiftXAuth(s: string, r: string, d: nat, k: nat)
    requires 0 < d && |s| == d + |r| && s[d..] == r && k <= |r|
    requires LineStart(s, d + k) && LineStart(r, k)
    requires !StartsAt(s, d + k, "Authorization: ") && !StartsAt(r, k, "Authorization: ")
    requires StartsAt(s, d + k, "X-Auth") && StartsAt(r, k, "X-Auth")
    ensures HeaderMatchAt(s, d + k) == Shift(HeaderMatchAt(r, k), d)
  {
    NonSpaceEndShift(s, r, d, k + 6);
    var q := NonSpaceEnd(r, k + 6);
    if k + 6 < q < |r| {
      assert s[d + q - 1] == r[q - 1] && s[d + q] == r[q];
      SuffixSlice(s, r, d, k, q - 1);
      IndexFromShift(s, r, d, q + 1, '\n');
    }
    XAuthShifted(s, r, d, k, q);
  }

  /** HeaderMatchShiftXAuth from the shifted facts it needs about the name's end q. */
  lemma XAuthShifted(s: string, r: string, d: nat, k: nat, q: nat)
    requires |s| == d + |r| && k <= |r|
    requires LineStart(s, d + k) && LineStart(r, k)
    requires !StartsAt(s, d + k, "Authorization: ") && !StartsAt(r, k, "Authorization: ")
    requires StartsAt(s, d + k, "X-Auth") && StartsAt(r, k, "X-Auth")
    requires q == NonSpaceEnd(r, k + 6) && NonSpaceEnd(s, d + k + 6) == d + q
    requires k + 6 < q < |r| ==>
      && s[d + q - 1] == r[q - 1] && s[d + q] == r[q] && s[d + k..d + q - 1] == r[k..q - 1]
      && IndexFrom(s, d + q + 1, '\n') == d + IndexFrom(r, q + 1, '\n')
    ensures HeaderMatchAt(s, d + k) == Shift(HeaderMatchAt(r, k), d)
  {
  }

  /**
   * After a newline, the header matcher finds in the rest of the text what it finds in that
   * rest on its own: the lines after a newline are matched independently of what precedes.
   */
  lemma HeaderMatchShift(s: string, r: string, d: nat, k: nat)
    requires 0 < d && |s| == d + |r| && s[d..] == r && s[d - 1] == '\n' && k <= |r|
    ensures HeaderMatchAt(s, d + k) == Shift(HeaderMatchAt(r, k), d)
  {
    assert LineStart(s, d + k) <==> LineStart(r, k) by {
      if k > 0 {
        assert s[d + k - 1] == r[k - 1];
      }
    }
    StartsAtShift(s, r, d, k, "Authorization: ");
    StartsAtShift(s, r, d, k, "X-Auth");
    if LineStart(r, k) && StartsAt(r, k, "Authorization: ") {
      HeaderMatchShiftAuthorization(s, r, d, k);
    } else if LineStart(r, k) && StartsAt(r, k, "X-Auth") {
      HeaderMatchShiftXAuth(s, r, d, k);
    }
  }

  /** Where the scan at i resumes: after the match at i, or at the next character. */
  function Next(s: string, t: seq<Option<Match>>, i: nat): (k: nat)
    requires ValidTable(s, t) && i < |s|
    ensures i < k <= |s|
  {
    if t[i].Some? then t[i].value.end else i + 1
  }

  /** What the scan writes for position i: the replacement of the match there, or s[i]. */
  function Emit(s: string, t: seq<Option<Match>>, i: nat): string
    requires ValidTable(s, t) && i < |s|
  {
    if t[i].Some? then t[i].value.replacement else [s[i]]
  }

  lemma ReplaceFromStep(s: string, t: seq<Option<Match>>, i: nat)
    requires ValidTable(s, t) && i < |s|
    ensures ReplaceFrom(s, t, i) == Emit(s, t, i) + ReplaceFrom(s, t, Next(s, t, i))
  {
  }

  /** A shifted table makes the scan of s at d + i take the step the scan of r takes at i. */
  lemma ShiftStep(s: string, t: seq<Option<Match>>, r: string, u: seq<Option<Match>>, d: nat, i: nat)
    requires ValidTable(s, t) && ValidTable(r, u) && |s| == d + |r| && s[d..] == r && i < |r|
    requires t[d + i] == Shift(u[i], d)
    ensures Emit(s, t, d + i) == Emit(r, u, i)
    ensures Next(s, t, d + i) == d + Next(r, u, i)
  {
    assert s[d..][i] == s[d + i];
  }

  /** The scan over a suffix of s, with the suffix's matches moved by d, is the scan over s. */
  lemma {:induction false} ReplaceFromShift(s: string, t: seq<Option<Match>>, r: string, u: seq<Option<Match>>, d: nat, i: nat)
    requires ValidTable(s, t) && ValidTable(r, u) && |s| == d + |r| && s[d..] == r && i <= |r|
    requires forall k :: 0 <= k < |r| ==> t[d + k] == Shift(u[k], d)
    ensures ReplaceFrom(s, t, d + i) == ReplaceFrom(r, u, i)
    decreases |r| - i
  {
    if i < |r| {
      ReplaceFromStep(s, t, d + i);
      ReplaceFromStep(r, u, i);
      ShiftStep(s, t, r, u, d, i);
      ReplaceFromShift(s, t, r, u, d, Next(r, u, i));
    }
  }

  /** A header name and ": " at the start of s lie within its first line. */
  lemma HeaderAtFirstLine(s: string, line: string, n: nat)
    requires '\n' !in line && |line| <= |s| && s[..|line|] == line && (|line| < |s| ==> s[|line|] == '\n')
    ensures HeaderAt(s, 0, n) <==> HeaderAt(line, 0, n)
    ensures HeaderAt(s, 0, n) ==> s[0..n] == line[..n]
  {
    if HeaderAt(s, 0, n) {
      HeaderAtNoNewline(s, 0, n);
      assert n + 2 <= |line|;
      assert s[0..n] == line[0..n];
    }
    if HeaderAt(line, 0, n) {
      assert s[0..n] == line[0..n];
    }
  }

  /** HeaderLine does not depend on which header name length it picks: there is only one. */
  lemma HeaderLineIs(line: string, n: nat)
    requires HeaderAt(line, 0, n)
    ensures HeaderLine(line) == line[..n] + ": " + Placeholder
  {
    var n0: nat :| HeaderAt(line, 0, n0) && HeaderLine(line) == line[..n0] + ": " + Placeholder;
    HeaderAtUnique(line, 0, n, n0);
  }

  /** A header name at p has one length: the matcher's replacement fixes it. */
  lemma HeaderAtUnique(s: string, p: nat, n: nat, n0: nat)
    requires HeaderAt(s, p, n) && HeaderAt(s, p, n0)
    ensures n == n0
  {
    HeaderMatchOf(s, p, n);
    HeaderMatchOf(s, p, n0);
    var r := HeaderMatchAt(s, p).value.replacement;
    assert |r| == n + 2 + |Placeholder|;
    assert |r| == n0 + 2 + |Placeholder|;
  }

  /**
   * The header matcher at the start of a text whose first line is line finds the line's
   * redaction, up to the newline, exactly when the line starts with a header name and ": ".
   */
  lemma HeaderFirstLineMatch(s: string, line: string)
    requires '\n' !in line && |line| <= |s| && s[..|line|] == line && (|line| < |s| ==> s[|line|] == '\n')
    ensures HeaderMatchAt(s, 0).Some? <==> exists n: nat :: HeaderAt(line, 0, n)
    ensures HeaderMatchAt(s, 0).Some? ==> HeaderMatchAt(s, 0).value == Match(|line|, HeaderLine(line))
  {
    HeaderMatchAtSpec(s, 0);
    if HeaderMatchAt(s, 0).Some? {
      var n: nat :| HeaderAt(s, 0, n);
      HeaderFirstLineMatchOf(s, line, n);
    }
    if exists n: nat :: HeaderAt(line, 0, n) {
      var n: nat :| HeaderAt(line, 0, n);
      HeaderAtFirstLine(s, line, n);
    }
  }

  /** A header of name length n on the first line matches the whole line. */
  lemma HeaderFirstLineMatchOf(s: string, line: string, n: nat)
    requires '\n' !in line && |line| <= |s| && s[..|line|] == line && (|line| < |s| ==> s[|line|] == '\n')
    requires HeaderAt(s, 0, n)
    ensures HeaderAt(line, 0, n)
    ensures HeaderMatchAt(s, 0) == Some(Match(|line|, HeaderLine(line)))
  {
    HeaderAtFirstLine(s, line, n);
    HeaderLineIs(line, n);
    HeaderMatchOf(s, 0, n);
    if |line| < |s| {
      IndexFromIs(s, 0, |line|, '\n');
    } else {
      IndexFromSkip(s, 0, |s|, '\n');
    }
  }

  /** Within the first line, past its start, and on the newline that ends it, nothing matches. */
  lemma HeaderLineRestNoMatch(s: string, line: string)
    requires '\n' !in line && |line| <= |s| && s[..|line|] == line && (|line| < |s| ==> s[|line|] == '\n')
    ensures forall k :: 0 < k <= |line| && k < |s| ==> HeaderMatchAt(s, k).None?
  {
    forall k | 0 < k <= |line| && k < |s| ensures HeaderMatchAt(s, k).None? {
      assert s[k - 1] == line[k - 1];
    }
  }

  /** The scan over a text whose first line is line emits that line's redaction first. */
  lemma HeaderFirstLineReplaced(s: string, line: string)
    requires '\n' !in line && |line| <= |s| && s[..|line|] == line && (|line| < |s| ==> s[|line|] == '\n')
    ensures ReplaceFrom(s, MatchTable(Header, s), 0) == HeaderLine(line) + ReplaceFrom(s, MatchTable(Header, s), |line|)
  {
    HeaderFirstLineMatch(s, line);
    HeaderLineRestNoMatch(s, line);
    var t := MatchTable(Header, s);
    if |line| == 0 {
      assert HeaderLine(line) == line == "";
    } else {
      MatchTableAt(Header, s, 0);
      if t[0].None? {
        forall k | 0 <= k < |line| ensures t[k].None? {
          MatchTableAt(Header, s, k);
        }
        ReplaceFromSkips(s, t, 0, |line|);
        assert s[0..|line|] == line;
      }
    }
  }

  /** The header pass on a last line (one without a newline) is that line's redaction. */
  lemma HeaderPassLastLine(line: string)
    requires '\n' !in line
    ensures HeaderPass(line) == HeaderLine(line)
  {
    assert line[..|line|] == line;
    HeaderFirstLineReplaced(line, line);
    assert ReplaceFrom(line, MatchTable(Header, line), |line|) == "";
  }

  /** After a newline, the header matches of s are those of the rest moved by d. */
  lemma HeaderTableShift(s: string, r: string, d: nat)
    requires 0 < d && |s| == d + |r| && s[d..] == r && s[d - 1] == '\n'
    ensures forall k :: 0 <= k < |r| ==> MatchTable(Header, s)[d + k] == Shift(MatchTable(Header, r)[k], d)
  {
    forall k | 0 <= k < |r| ensures MatchTable(Header, s)[d + k] == Shift(MatchTable(Header, r)[k], d) {
      MatchTableAt(Header, s, d + k);
      MatchTableAt(Header, r, k);
      HeaderMatchShift(s, r, d, k);
    }
  }

  /** After a newline at d - 1, the header pass over s goes on as the header pass over the rest. */
  lemma HeaderPassShift(s: string, r: string, d: nat)
    requires 0 < d && |s| == d + |r| && s[d..] == r && s[d - 1] == '\n'
    ensures ReplaceFrom(s, MatchTable(Header, s), d) == HeaderPass(r)
  {
    HeaderTableShift(s, r, d);
    ReplaceFromShift(s, MatchTable(Header, s), r, MatchTable(Header, r), d, 0);
  }

  /** No header match starts on a newline character. */
  lemma HeaderNoMatchAtNewline(s: string, n: nat)
    requires n < |s| && s[n] == '\n'
    ensures HeaderMatchAt(s, n).None?
  {
    HeaderMatchNeeds(s, n);
    StartsAtFirst(s, n, "Authorization");
    StartsAtFirst(s, n, "X-Auth");
  }

  /** The scan keeps a newline it reaches and then goes on as the header pass over the rest. */
  lemma HeaderNewlineStep(s: string, n: nat)
    requires n < |s| && s[n] == '\n'
    ensures ReplaceFrom(s, MatchTable(Header, s), n) == "\n" + HeaderPass(s[n + 1..])
  {
    MatchTableAt(Header, s, n);
    HeaderNoMatchAtNewline(s, n);
    HeaderPassShift(s, s[n + 1..], n + 1);
  }

  /** The header pass over a text whose first line ends at n. */
  lemma HeaderPassAt(s: string, n: nat)
    requires n < |s| && s[n] == '\n' && '\n' !in s[..n]
    ensures HeaderPass(s) == HeaderLine(s[..n]) + "\n" + HeaderPass(s[n + 1..])
  {
    HeaderFirstLineReplaced(s, s[..n]);
    HeaderNewlineStep(s, n);
  }

  /**
   * The header pass on a text made of a line, a newline and the rest is the line's redaction,
   * the newline, and the header pass on the rest: the pass works line by line and keeps
   * every newline.
   */
  lemma HeaderPassLine(line: string, rest: string)
    requires '\n' !in line
    ensures HeaderPass(line + "\n" + rest) == HeaderLine(line) + "\n" + HeaderPass(rest)
  {
    var s := line + "\n" + rest;
    assert s[..|line|] == line && s[|line| + 1..] == rest && s[|line|] == '\n';
    HeaderPassAt(s, |line|);
  }

}
