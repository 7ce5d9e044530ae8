/** Which public field names count as credential-bearing. */
module CredentialNames {

  const SINGLE_TOKENS := {
    "authorization", "cookie", "cookies", "credential", "credentials", "passphrase", "passwd", "password", "secret"
  }

  const TOKEN_SEQUENCES := [
    ["access", "key"], ["access", "token"], ["api", "key"], ["api", "token"], ["auth", "token"],
    ["bearer", "token"], ["client", "secret"], ["id", "token"], ["oauth", "token"], ["private", "key"],
    ["refresh", "key"], ["refresh", "token"], ["secret", "key"], ["service", "role", "key"]
  ]

  const METADATA_SEQUENCES := [
    ["api", "token", "count"], ["password", "policy"], ["policy", "password"], ["passwd", "policy"],
    ["policy", "passwd"], ["passphrase", "policy"], ["policy", "passphrase"]
  ]

  predicate IsUpper(c: char) { 'A' <= c <= 'Z' }
  predicate IsLower(c: char) { 'a' <= c <= 'z' }
  predicate IsDigit(c: char) { '0' <= c <= '9' }
  predicate IsAlphanumeric(c: char) { IsUpper(c) || IsLower(c) || IsDigit(c) }

  function Lower(c: char): char
  {
    if IsUpper(c) then (c as int - 'A' as int + 'a' as int) as char else c
  }

  /** A word starts at `i`: a capital after a small letter or digit, or the last
      capital of a run that a small letter follows. */
  predicate StartsWord(name: string, i: nat)
    requires i < |name|
  {
    i > 0 && IsUpper(name[i]) &&
    (IsLower(name[i - 1]) || IsDigit(name[i - 1]) ||
     (IsUpper(name[i - 1]) && i + 1 < |name| && IsLower(name[i + 1])))
  }

  /** The lower-case words of `name[i..]`, the word in progress being `word`. */
  function TokensFrom(name: string, i: nat, word: string): seq<string>
    requires i <= |name|
    decreases |name| - i
  {
    var done := if word == "" then [] else [word];
    if i == |name| then done
    else if !IsAlphanumeric(name[i]) then done + TokensFrom(name, i + 1, "")
    else if StartsWord(name, i) then done + TokensFrom(name, i + 1, [Lower(name[i])])
    else TokensFrom(name, i + 1, word + [Lower(name[i])])
  }

  function Tokens(name: string): seq<string> { TokensFrom(name, 0, "") }

  predicate Contains(tokens: seq<string>, words: seq<string>)
  {
    tokens != [] && (words <= tokens || Contains(tokens[1..], words))
  }

  function Concat(words: seq<string>): string
  {
    if words == [] then "" else words[0] + Concat(words[1..])
  }

  predicate IsCredentialFieldName(name: string)
  {
    var tokens := Tokens(name);
    && tokens != []
    && tokens !in METADATA_SEQUENCES
    && ((exists t :: t in tokens && t in SINGLE_TOKENS)
        || (exists t, s :: t in tokens && s in TOKEN_SEQUENCES && t == Concat(s))
        || (exists s :: s in TOKEN_SEQUENCES && Contains(tokens, s)))
  }
}
