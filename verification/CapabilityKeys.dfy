/** Which capability names a connector profile may store. The service filters them
    with one pattern and the product table checks them with another. */
module CapabilityKeys {
  import opened Common

  const LONGEST := 200

  const SENSITIVE := [
    "apikey", "api_key", "api-key", "accesstoken", "access_token", "access-token", "auth", "bearer", "credential",
    "email", "password", "secret", "tax_id", "tax-id", "taxid", "token", "responsebody", "response_body",
    "response-body", "requestbody", "request_body", "request-body", "payload"
  ]

  const REFUSED_BY_TABLE := [
    "apikey", "api_key", "api-key", "accesstoken", "access_token", "access-token", "auth", "bearer", "credential",
    "email", "password", "secret", "tax_id", "tax-id", "taxid", "token", "responsebody", "response_body",
    "response-body", "payload"
  ]

  /** The words that only the table's check can find in a name the service accepts. */
  const ACROSS_SEPARATORS := ["api_key", "tax_id", "response_body"]

  predicate IsLetter(c: char) { 'a' <= c <= 'z' }
  predicate IsAlphanumeric(c: char) { IsLetter(c) || '0' <= c <= '9' }

  predicate Segment(text: string)
  {
    text != "" && IsLetter(text[0]) && forall i :: 0 <= i < |text| ==> IsAlphanumeric(text[i]) || text[i] == '_'
  }

  predicate WellFormed(name: string)
  {
    forall i :: 0 <= i < |Split(name, '.')| ==> Segment(Split(name, '.')[i])
  }

  predicate Contains(text: string, word: string)
  {
    word <= text || (text != "" && Contains(text[1..], word))
  }

  predicate ContainsAny(text: string, words: seq<string>)
  {
    exists i :: 0 <= i < |words| && Contains(text, words[i])
  }

  /** What the service stores. */
  predicate Safe(name: string)
  {
    |name| <= LONGEST && WellFormed(name) && !ContainsAny(name, SENSITIVE)
  }

  /** Every run of other characters becomes one underscore. */
  function Collapsed(name: string): (text: string)
    ensures name != "" ==> text != "" && text[0] == if IsAlphanumeric(name[0]) then name[0] else '_'
    ensures forall c :: c in text ==> IsAlphanumeric(c) || c == '_'
  {
    if name == "" then ""
    else if IsAlphanumeric(name[0]) then [name[0]] + Collapsed(name[1..])
    else if |name| > 1 && !IsAlphanumeric(name[1]) then Collapsed(name[1..])
    else "_" + Collapsed(name[1..])
  }

  /** What the table's check constraint lets in. */
  predicate TableSafe(name: string)
  {
    WellFormed(name) && !ContainsAny(Collapsed(name), REFUSED_BY_TABLE)
  }

  const REDACTED_WORDS := [
    "secret", "token", "apikey", "api_key", "api-key", "password",
    "servicerolekey", "service_rolekey", "service-rolekey", "servicerole_key", "service_role_key", "service-role_key",
    "servicerole-key", "service_role-key", "service-role-key", "privatekey", "private_key", "private-key"
  ]

  const REDACTED_HEADERS := [
    "authorization", "proxyauthorization", "proxy_authorization", "proxy-authorization",
    "cookie", "setcookie", "set_cookie", "set-cookie"
  ]

  /** The redaction of public values takes the entry for a credential. (Of the names
      the redaction spares by name, none is one that the service stores.) */
  predicate Redacted(name: string)
  {
    ContainsAny(name, REDACTED_WORDS) || name in REDACTED_HEADERS
  }

  /** The redacted words and headers that a name the service accepts can have. */
  const OVERLOOKED_WORDS := [
    "servicerolekey", "service_rolekey", "servicerole_key", "service_role_key", "privatekey", "private_key"
  ]

  const OVERLOOKED_HEADERS := ["cookie", "setcookie", "set_cookie"]

  lemma {:induction false} PrefixSurvives(name: string, word: string)
    requires forall c :: c in word ==> IsAlphanumeric(c)
    requires word <= Collapsed(name)
    ensures word <= name
  {
    if word != "" {
      assert word[0] in word && Collapsed(name)[0] == word[0];
      if name != "" && IsAlphanumeric(name[0]) {
        assert word[1..] <= Collapsed(name[1..]);
        PrefixSurvives(name[1..], word[1..]);
        assert name == [name[0]] + name[1..] && word == [word[0]] + word[1..];
      }
    }
  }

  /** Collapsing separators creates no occurrence of a word without separators. */
  lemma {:induction false} WordSurvives(name: string, word: string)
    requires forall c :: c in word ==> IsAlphanumeric(c)
    requires Contains(Collapsed(name), word)
    ensures Contains(name, word)
  {
    if word <= Collapsed(name) {
      PrefixSurvives(name, word);
    } else {
      assert Collapsed(name)[1..] == Collapsed(name[1..]) || Collapsed(name) == Collapsed(name[1..]);
      if Collapsed(name) == Collapsed(name[1..]) || Contains(Collapsed(name[1..]), word) {
        WordSurvives(name[1..], word);
      }
    }
  }

  lemma {:induction false} ContainsPart(text: string, before: string, word: string)
    requires Contains(text, before + word)
    ensures Contains(text, word)
    decreases |text| + |before|
  {
    if before + word <= text {
      if before != "" {
        assert (before + word)[1..] == before[1..] + word;
        assert before[1..] + word <= text[1..];
        ContainsPart(text[1..], before[1..], word);
      } else {
        assert before + word == word;
      }
    } else {
      ContainsPart(text[1..], before, word);
    }
  }

  lemma {:induction false} ContainsLetters(text: string, word: string)
    requires Contains(text, word)
    ensures forall c :: c in word ==> c in text
  {
    if !(word <= text) {
      ContainsLetters(text[1..], word);
    }
  }

  lemma {:induction false} ContainsFits(text: string, word: string)
    ensures Contains(text, word) ==> |word| <= |text|
  {
    if text != "" {
      ContainsFits(text[1..], word);
    }
  }

  /** Of the names the service stores, the table refuses exactly those that spell
      `api_key`, `tax_id` or `response_body` once runs of separators are one. */
  lemma {:induction false} TableRefusesExactly(name: string)
    requires Safe(name)
    ensures TableSafe(name) <==> !ContainsAny(Collapsed(name), ACROSS_SEPARATORS)
  {
    var text := Collapsed(name);
    forall i | 0 <= i < |REFUSED_BY_TABLE| && Contains(text, REFUSED_BY_TABLE[i])
      ensures REFUSED_BY_TABLE[i] in ACROSS_SEPARATORS
    {
      var word := REFUSED_BY_TABLE[i];
      ContainsLetters(text, word);
      if '-' in word {
        assert false;
      } else if word == "access_token" {
        assert word == "access_" + "token";
        ContainsPart(text, "access_", "token");
        WordSurvives(name, "token");
        WordIsSensitive(15);
        assert false;
      } else if word !in ACROSS_SEPARATORS {
        WordSurvives(name, word);
        WordIsSensitive(i);
        assert false;
      }
    }
    if ContainsAny(text, ACROSS_SEPARATORS) {
      AcrossIsRefused(text);
    }
  }

  lemma WordIsSensitive(i: nat)
    requires i < |REFUSED_BY_TABLE|
    ensures exists j :: 0 <= j < |SENSITIVE| && SENSITIVE[j] == REFUSED_BY_TABLE[i]
  {
    var j := if i < 19 then i else 22;
    assert SENSITIVE[j] == REFUSED_BY_TABLE[i];
  }

  lemma AcrossIsRefused(text: string)
    requires ContainsAny(text, ACROSS_SEPARATORS)
    ensures ContainsAny(text, REFUSED_BY_TABLE)
  {
    var i :| 0 <= i < |ACROSS_SEPARATORS| && Contains(text, ACROSS_SEPARATORS[i]);
    var j := if i == 0 then 1 else if i == 1 then 12 else 17;
    assert REFUSED_BY_TABLE[j] == ACROSS_SEPARATORS[i];
  }

  const GAP := "api.key"

  /** The two filters differ: the service stores `api.key`, the table does not. */
  lemma FiltersDiffer()
    ensures Safe(GAP) && !TableSafe(GAP)
  {
    GapIsWellFormed();
    forall i | 0 <= i < |SENSITIVE| ensures !Contains(GAP, SENSITIVE[i]) {
      GapIsInnocent(i);
    }
    assert Collapsed(GAP) == "api_key" == REFUSED_BY_TABLE[1];
    assert Contains(Collapsed(GAP), REFUSED_BY_TABLE[1]);
  }

  lemma GapIsWellFormed()
    ensures WellFormed(GAP)
  {
    assert GAP == "api" + ['.'] + "key";
    SplitPrefix("api", "key", '.');
    SplitWhole("key", '.');
    assert Split(GAP, '.') == ["api", "key"];
    assert Segment("api") && Segment("key");
  }

  lemma GapIsInnocent(i: nat)
    requires i < |SENSITIVE|
    ensures !Contains(GAP, SENSITIVE[i])
  {
    if i == 0 {
      GapHasNoApikey();
    } else {
      var k := OddLetter(i);
      if Contains(GAP, SENSITIVE[i]) {
        ContainsLetters(GAP, SENSITIVE[i]);
      }
    }
  }

  lemma GapHasNoApikey()
    ensures !Contains(GAP, SENSITIVE[0])
  {
    var word := SENSITIVE[0];
    assert GAP[3] != word[3] && GAP[1..][0] != word[0];
    ContainsFits(GAP[1..][1..], word);
  }

  /** Every sensitive word but `apikey` has a letter that `api.key` lacks. */
  lemma OddLetter(i: nat) returns (k: nat)
    requires 0 < i < |SENSITIVE|
    ensures k < |SENSITIVE[i]| && SENSITIVE[i][k] !in GAP
  {
    k := if i in {1, 2, 22} then 3 else if i == 10 then 2 else if i in {3, 4, 5, 6, 9} then 1 else 0;
  }

  // ---- names that the redaction takes for credentials ----

  lemma {:induction false} SplitKeeps(text: string, sep: char, c: char)
    requires c in text && c != sep
    ensures exists i :: 0 <= i < |Split(text, sep)| && c in Split(text, sep)[i]
  {
    var parts := Split(text, sep);
    if text[0] == c {
      assert c in parts[0];
    } else {
      SplitKeeps(text[1..], sep, c);
      var rest := Split(text[1..], sep);
      var i :| 0 <= i < |rest| && c in rest[i];
      assert text[0] == sep ==> parts[i + 1] == rest[i];
      assert text[0] != sep ==> parts[i] == if i == 0 then [text[0]] + rest[0] else rest[i];
    }
  }

  lemma NoDash(name: string)
    requires WellFormed(name)
    ensures '-' !in name
  {
    if '-' in name {
      SplitKeeps(name, '.', '-');
    }
  }

  lemma AuthIsSensitive(name: string)
    requires Safe(name)
    ensures !Contains(name, "auth")
  {
    assert SENSITIVE[6] == "auth";
  }

  lemma WordOverlooked(name: string, i: nat)
    requires Safe(name) && i < |REDACTED_WORDS| && Contains(name, REDACTED_WORDS[i])
    ensures i in {6, 7, 9, 10, 15, 16}
  {
    NoDash(name);
    ContainsLetters(name, REDACTED_WORDS[i]);
    assert SENSITIVE[0] == REDACTED_WORDS[2] && SENSITIVE[1] == REDACTED_WORDS[3];
    assert SENSITIVE[10] == REDACTED_WORDS[5] && SENSITIVE[11] == REDACTED_WORDS[0];
    assert SENSITIVE[15] == REDACTED_WORDS[1];
    if i in {4, 8, 11, 12, 13, 14, 17} {
      HasDash(i);
    }
  }

  lemma HasDash(i: nat)
    requires i in {4, 8, 11, 12, 13, 14, 17}
    ensures '-' in REDACTED_WORDS[i]
  {
    var word := REDACTED_WORDS[i];
    var at := if i == 4 then 3 else if i == 12 then 11 else if i == 13 then 12 else 7;
    assert word[at] == '-';
  }

  lemma {:induction false} ContainsAt(text: string, word: string, i: nat)
    requires i <= |text| && word <= text[i..]
    ensures Contains(text, word)
  {
    if i > 0 {
      assert text[i..] == text[1..][i - 1..];
      ContainsAt(text[1..], word, i - 1);
    }
  }

  lemma HeaderOverlooked(i: nat)
    requires i < |REDACTED_HEADERS| && Safe(REDACTED_HEADERS[i])
    ensures i in {4, 5, 6}
  {
    var name := REDACTED_HEADERS[i];
    if i < 3 {
      ContainsAt(name, "auth", if i == 0 then 0 else if i == 1 then 5 else 6);
      AuthIsSensitive(name);
    } else if i in {3, 7} {
      assert name[if i == 3 then 5 else 3] == '-';
      NoDash(name);
    }
  }

  /** Of the names the service stores, the redaction hits exactly those that hold a
      private or service-role key, or are a cookie header. */
  lemma RedactionHitsExactly(name: string)
    requires Safe(name)
    ensures Redacted(name) <==> ContainsAny(name, OVERLOOKED_WORDS) || name in OVERLOOKED_HEADERS
  {
    if i :| 0 <= i < |REDACTED_WORDS| && Contains(name, REDACTED_WORDS[i]) {
      WordOverlooked(name, i);
      SameWords(i);
    }
    if i :| 0 <= i < |REDACTED_HEADERS| && REDACTED_HEADERS[i] == name {
      HeaderOverlooked(i);
      assert name == OVERLOOKED_HEADERS[i - 4];
    }
    if j :| 0 <= j < |OVERLOOKED_HEADERS| && OVERLOOKED_HEADERS[j] == name {
      assert name == REDACTED_HEADERS[j + 4];
    }
    if j :| 0 <= j < |OVERLOOKED_WORDS| && Contains(name, OVERLOOKED_WORDS[j]) {
      OverlookedIsRedacted(j);
    }
  }

  lemma SameWords(i: nat)
    requires i in {6, 7, 9, 10, 15, 16}
    ensures exists j :: 0 <= j < |OVERLOOKED_WORDS| && OVERLOOKED_WORDS[j] == REDACTED_WORDS[i]
  {
    var j := if i <= 7 then i - 6 else if i <= 10 then i - 7 else i - 11;
    assert OVERLOOKED_WORDS[j] == REDACTED_WORDS[i];
  }

  lemma OverlookedIsRedacted(j: nat)
    requires j < |OVERLOOKED_WORDS|
    ensures exists i :: 0 <= i < |REDACTED_WORDS| && REDACTED_WORDS[i] == OVERLOOKED_WORDS[j]
  {
    var i := if j < 2 then j + 6 else if j < 4 then j + 7 else j + 11;
    assert REDACTED_WORDS[i] == OVERLOOKED_WORDS[j];
  }

  const COOKIE := "cookie"

  /** `cookie` passes both filters and is redacted all the same. */
  lemma CookieSlipsThrough()
    ensures Safe(COOKIE) && TableSafe(COOKIE) && Redacted(COOKIE)
  {
    SplitWhole(COOKIE, '.');
    assert Segment(COOKIE);
    forall i | 0 <= i < |SENSITIVE| ensures !Contains(COOKIE, SENSITIVE[i]) {
      CookieIsInnocent(i);
    }
    assert Collapsed(COOKIE) == COOKIE;
    forall i | 0 <= i < |REFUSED_BY_TABLE| ensures !Contains(COOKIE, REFUSED_BY_TABLE[i]) {
      WordIsSensitive(i);
    }
    assert REDACTED_HEADERS[4] == COOKIE;
  }

  /** Every sensitive word has a letter that `cookie` lacks. */
  lemma CookieIsInnocent(i: nat)
    requires i < |SENSITIVE|
    ensures !Contains(COOKIE, SENSITIVE[i])
  {
    var k := if i in {8, 9} then 1 else 0;
    assert SENSITIVE[i][k] !in COOKIE;
    if Contains(COOKIE, SENSITIVE[i]) {
      ContainsLetters(COOKIE, SENSITIVE[i]);
    }
  }
}
