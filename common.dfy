/** Values shared by both cleaners: Go errors as opaque tokens carrying their
    message, Go's `(value, error)` returns as `Result`, complete cloud listings,
    and the tests of Go's `strings` package that the cleaners rely on. */
module Common {

  /** A non-nil Go `error`. Only its message, what `Error()` returns, is
      observable. Wrapping an error with context does not change it here. */
  datatype Error = Error(message: string)

  datatype Option<T> = None | Some(value: T)

  /** A Go `(T, error)` return: a value with a nil error, or a non-nil error. */
  datatype Result<T> = Ok(value: T) | Fail(error: Error)

  /** What a `ListComplete`-style call yields: an error, or every item of the
      remote collection in the order the cursor visits them. */
  datatype Listing<T> = ListFailed(error: Error) | Listed(items: seq<T>)

  /** `strings.HasPrefix` */
  predicate HasPrefix(s: string, prefix: string)
  {
    |prefix| <= |s| && s[..|prefix|] == prefix
  }

  /** `strings.HasSuffix` */
  predicate HasSuffix(s: string, suffix: string)
  {
    |suffix| <= |s| && s[|s| - |suffix|..] == suffix
  }

  /** `HasPrefix` holds exactly when `s` is `prefix` followed by some rest. */
  lemma HasPrefixIsConcatenation(s: string, prefix: string)
    ensures HasPrefix(s, prefix) <==> exists rest :: s == prefix + rest
  {
    if HasPrefix(s, prefix) {
      assert s == prefix + s[|prefix|..];
    }
    if exists rest :: s == prefix + rest {
      var rest :| s == prefix + rest;
      assert s[..|prefix|] == prefix;
    }
  }

  /** `HasSuffix` holds exactly when `s` is some front followed by `suffix`. */
  lemma HasSuffixIsConcatenation(s: string, suffix: string)
    ensures HasSuffix(s, suffix) <==> exists front :: s == front + suffix
  {
    if HasSuffix(s, suffix) {
      assert s == s[..|s| - |suffix|] + suffix;
    }
    if exists front :: s == front + suffix {
      var front :| s == front + suffix;
      assert s[|s| - |suffix|..] == suffix;
    }
  }

  /** `pattern` occurs in `s` starting at offset `i`. */
  ghost predicate OccursAt(s: string, pattern: string, i: int)
  {
    0 <= i && i + |pattern| <= |s| && s[i..i + |pattern|] == pattern
  }

  /** `strings.Contains`, as a search from the left. */
  function Contains(s: string, pattern: string): (r: bool)
    ensures r <==> exists i :: OccursAt(s, pattern, i)
    decreases |s|
  {
    if HasPrefix(s, pattern) then
      assert OccursAt(s, pattern, 0);
      true
    else if s == [] then
      false
    else
      OccursShift(s, pattern);
      Contains(s[1..], pattern)
  }

  /** An occurrence in `s` away from offset 0 is an occurrence in `s[1..]`. */
  lemma OccursShift(s: string, pattern: string)
    requires s != [] && !HasPrefix(s, pattern)
    ensures (exists i :: OccursAt(s, pattern, i)) <==> (exists i :: OccursAt(s[1..], pattern, i))
  {
    forall i | OccursAt(s, pattern, i)
      ensures OccursAt(s[1..], pattern, i - 1)
    {
      assert s[1..][i - 1..i - 1 + |pattern|] == s[i..i + |pattern|];
    }
    forall i | OccursAt(s[1..], pattern, i)
      ensures OccursAt(s, pattern, i + 1)
    {
      assert s[1..][i..i + |pattern|] == s[i + 1..i + 1 + |pattern|];
    }
  }
}
