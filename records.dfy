/** A stored `DataFile` row and what `Model.full_clean()` checks of one. */
module Records {
  import opened Common

  /** `DataFile.path` has `max_length=1000`. */
  const PathMaxLength := 1000

  /** `DataFile.hash` has `max_length=64`. */
  const HashMaxLength := 64

  /** The largest value a `PositiveIntegerField` (`DataFile.size`) accepts. */
  const SizeMax := 2147483647

  predicate IsLowerHex(c: char) { '0' <= c <= '9' || 'a' <= c <= 'f' }

  /** Exactly 64 characters from `[0-9a-f]`: a SHA-256 hex digest. */
  predicate IsValidHash(h: string)
  {
    |h| == 64 && forall j :: 0 <= j < |h| ==> IsLowerHex(h[j])
  }

  /** What `hashlib.sha256(...).hexdigest()` returns. */
  type Digest = h: string | IsValidHash(h) witness seq(64, _ => '0')

  /** The `RegexValidator` with `^[0-9a-f]{64}$`. Django applies it with
      `re.search`, and `$` also matches just before a final newline. */
  predicate HashRegexAccepts(h: string)
  {
    IsValidHash(h) || (|h| == 65 && h[64] == '\n' && IsValidHash(h[..64]))
  }

  /** A stored row of the DataFile table. */
  datatype FileRecord = FileRecord(
    path: string,
    size: nat,
    hash: string,
    data: Bytes,
    created: Time,
    lastUpdated: Time)

  /** The reasons `full_clean()` can reject a DataFile. */
  datatype FieldError = PathTooLong | HashTooLong | HashMalformed | SizeTooLarge | DuplicatePath

  /** The errors of the validators on `hash`; Django runs none on an empty value. */
  function HashErrors(hash: string): set<FieldError>
  {
    if hash == [] then {}
    else (if |hash| > HashMaxLength then {HashTooLong} else {})
         + (if HashRegexAccepts(hash) then {} else {HashMalformed})
  }

  /** `full_clean()` of a DataFile with the given path, size and hash, among a
      table holding `existingPaths` for the same source. Every field of
      DataFile is non-editable, so Django skips each `Field.validate` and runs
      only the validators: max lengths, the hash pattern and the integer range.
      The `(source, path)` unique constraint is checked only when `path`
      itself had no error. */
  function CleanErrors(path: string, size: nat, hash: string, existingPaths: set<string>): (errors: set<FieldError>)
    ensures PathTooLong in errors <==> |path| > PathMaxLength
    ensures SizeTooLarge in errors <==> size > SizeMax
    ensures DuplicatePath in errors <==> |path| <= PathMaxLength && path in existingPaths
    ensures HashTooLong in errors <==> |hash| > HashMaxLength
    ensures HashMalformed in errors <==> hash != [] && !HashRegexAccepts(hash)
  {
    var pathErrors: set<FieldError> := if |path| > PathMaxLength then {PathTooLong} else {};
    var sizeErrors: set<FieldError> := if size > SizeMax then {SizeTooLarge} else {};
    pathErrors + HashErrors(hash) + sizeErrors
    + (if pathErrors == {} && path in existingPaths then {DuplicatePath} else {})
  }

  /** The two validators on `hash` together accept a non-empty value exactly
      when it is 64 lowercase hex digits: the pattern alone would also let a
      final newline through, and the length limit rejects it. */
  lemma HashValidatorsAcceptExactlyDigests(hash: string)
    requires hash != []
    ensures HashErrors(hash) == {} <==> IsValidHash(hash)
  {
    if IsValidHash(hash) {
      assert HashRegexAccepts(hash);
    }
  }

  /** A digest never draws a hash error, so a freshly hashed DataFile fails
      `full_clean()` only for its path or its size. */
  lemma CleanErrorsOfDigest(path: string, size: nat, hash: Digest, existingPaths: set<string>)
    ensures CleanErrors(path, size, hash, existingPaths) == {}
            <==> |path| <= PathMaxLength && size <= SizeMax && path !in existingPaths
  {
    HashValidatorsAcceptExactlyDigests(hash);
    if |path| > PathMaxLength {
      assert PathTooLong in CleanErrors(path, size, hash, existingPaths);
    } else if size > SizeMax {
      assert SizeTooLarge in CleanErrors(path, size, hash, existingPaths);
    } else if path in existingPaths {
      assert DuplicatePath in CleanErrors(path, size, hash, existingPaths);
    }
  }

  /** The hash validators pass. */
  predicate HashAccepted(hash: string)
  {
    hash == [] || (|hash| <= HashMaxLength && HashRegexAccepts(hash))
  }

  /** `full_clean()` raises nothing. */
  predicate Cleans(path: string, size: nat, hash: string, existingPaths: set<string>)
  {
    |path| <= PathMaxLength && HashAccepted(hash) && size <= SizeMax && path !in existingPaths
  }

  lemma CleansExactlyWithoutErrors(path: string, size: nat, hash: string, existingPaths: set<string>)
    ensures CleanErrors(path, size, hash, existingPaths) == {} <==> Cleans(path, size, hash, existingPaths)
  {
    if |path| > PathMaxLength {
      assert PathTooLong in CleanErrors(path, size, hash, existingPaths);
    } else if size > SizeMax {
      assert SizeTooLarge in CleanErrors(path, size, hash, existingPaths);
    } else if path in existingPaths {
      assert DuplicatePath in CleanErrors(path, size, hash, existingPaths);
    } else if hash != [] && |hash| > HashMaxLength {
      assert HashTooLong in CleanErrors(path, size, hash, existingPaths);
    } else if hash != [] && !HashRegexAccepts(hash) {
      assert HashMalformed in CleanErrors(path, size, hash, existingPaths);
    }
  }

  /** What `full_clean()` still checks of a DataFile whose hash is a digest. */
  predicate Admissible(path: string, size: nat, existingPaths: set<string>)
  {
    |path| <= PathMaxLength && size <= SizeMax && path !in existingPaths
  }

  lemma CleansDigest(path: string, size: nat, hash: Digest, existingPaths: set<string>)
    ensures Cleans(path, size, hash, existingPaths) <==> Admissible(path, size, existingPaths)
  {
    assert HashRegexAccepts(hash);
  }
}
