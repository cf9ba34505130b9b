/** Chirp validation and the profanity filter (chirp.go; handler_chirp.go
    carries an identical copy). */
module Chirp {
  import opened Wrappers
  import opened Strings
  import opened Uuids

  /** A create request as decoded from JSON. */
  datatype ChirpRequest = ChirpRequest(body: string, userID: Uuid)

  /** A stored chirp, and the same fields as the API returns them; times are
      instants in nanoseconds. */
  datatype ChirpResponse = ChirpResponse(id: Uuid, createdAt: int, updatedAt: int, body: string, userID: Uuid)

  /** The longest chirp accepted, in bytes. */
  const MaxChirpLength: nat := 140

  const ProfaneWords: set<string> := {"kerfuffle", "sharbert", "fornax"}

  /** What a profane field is replaced with. */
  const Mask: string := "****"

  const TooLongMessage: string := "chirp is too long - max char: 140"

  /** profanity: the field, lower-cased, is one of the listed words. The
      whole field must match, punctuation included. */
  predicate Profane(word: string): (p: bool)
    ensures p ==> 6 <= |word| <= 9 && ' ' !in word
  {
    ToLower(word) in ProfaneWords
  }

  function Censor(word: string): string {
    if Profane(word) then Mask else word
  }

  function CensorAll(words: seq<string>): seq<string> {
    seq(|words|, i requires 0 <= i < |words| => Censor(words[i]))
  }

  /** The string filter returns: the " "-separated fields, each profane one
      replaced by the mask, joined again with " ". */
  function Filtered(s: string): string {
    Join(CensorAll(Split(s)))
  }

  /** filter: split, overwrite the profane fields in place, join. */
  method Filter(profaneString: string) returns (r: string)
    ensures r == Filtered(profaneString)
  {
    var words := Split(profaneString);
    var chirpWords := new string[|words|](i requires 0 <= i < |words| => words[i]);
    for i := 0 to chirpWords.Length
      invariant forall k | 0 <= k < i :: chirpWords[k] == Censor(words[k])
      invariant forall k | i <= k < chirpWords.Length :: chirpWords[k] == words[k]
    {
      if Profane(chirpWords[i]) {
        chirpWords[i] := Mask;
      }
    }
    assert chirpWords[..] == CensorAll(words);
    r := Join(chirpWords[..]);
  }

  lemma MaskIsClean()
    ensures !Profane(Mask)
  {
  }

  /** A field is changed exactly when it is profane, and then it is masked. */
  lemma CensorChangesExactlyProfane(word: string)
    ensures Censor(word) != word <==> Profane(word)
    ensures Profane(word) ==> Censor(word) == Mask
  {
  }

  /** Matching ignores case but not the rest of the field. */
  lemma ProfaneExamples()
    ensures Profane("FORNAX") && Profane("Kerfuffle") && Profane("sharbert")
    ensures !Profane("Fornax!") && !Profane("fornaxes")
  {
    assert ToLower("FORNAX") == "fornax";
    assert ToLower("Kerfuffle") == "kerfuffle";
    assert ToLower("sharbert") == "sharbert";
    assert ToLower("Fornax!") == "fornax!";
    assert ToLower("fornaxes") == "fornaxes";
  }

  /** filter keeps the number and the order of the fields and changes each one
      only by censoring it. */
  lemma FilteredFields(s: string)
    ensures Split(Filtered(s)) == CensorAll(Split(s))
  {
    var censored := CensorAll(Split(s));
    forall i | 0 <= i < |censored| ensures ' ' !in censored[i] {
      assert ' ' !in Mask;
    }
    SplitJoin(censored);
  }

  /** Fields that are pointwise no longer in bytes join to a string no longer in bytes. */
  lemma {:induction false} JoinNoLonger(shorter: seq<string>, longer: seq<string>)
    requires |shorter| == |longer|
    requires forall i | 0 <= i < |longer| :: Utf8Len(shorter[i]) <= Utf8Len(longer[i])
    ensures Utf8Len(Join(shorter)) <= Utf8Len(Join(longer))
  {
    if |longer| >= 2 {
      JoinNoLonger(shorter[1..], longer[1..]);
      Utf8LenAppend(shorter[0] + " ", Join(shorter[1..]));
      Utf8LenAppend(shorter[0], " ");
      Utf8LenAppend(longer[0] + " ", Join(longer[1..]));
      Utf8LenAppend(longer[0], " ");
    }
  }

  /** filter never lengthens a chirp: the mask has four bytes and every
      profane field at least six. */
  lemma FilteredNoLonger(s: string)
    ensures Utf8Len(Filtered(s)) <= Utf8Len(s)
  {
    var words := Split(s);
    forall i | 0 <= i < |words| ensures Utf8Len(CensorAll(words)[i]) <= Utf8Len(words[i]) {
      if Profane(words[i]) {
        Utf8LenBounds(words[i]);
        Utf8LenBounds(Mask);
      }
    }
    JoinNoLonger(CensorAll(words), words);
    JoinSplit(s);
  }

  /** Filtering twice is filtering once. */
  lemma FilteredIdempotent(s: string)
    ensures Filtered(Filtered(s)) == Filtered(s)
  {
    FilteredFields(s);
    MaskIsClean();
    var censored := CensorAll(Split(s));
    assert CensorAll(censored) == censored;
  }

  /** A chirp without profane fields passes through unchanged. */
  lemma FilteredClean(s: string)
    requires forall i | 0 <= i < |Split(s)| :: !Profane(Split(s)[i])
    ensures Filtered(s) == s
  {
    assert CensorAll(Split(s)) == Split(s);
    JoinSplit(s);
  }

  datatype ChirpError = ChirpTooLong

  /** The result validateAndCleanChirp returns: an error for more than 140
      bytes, the filtered chirp otherwise, which then also fits in 140 bytes. */
  function CleanChirp(chirp: string): (r: Result<string, ChirpError>)
    ensures r.Err? <==> Utf8Len(chirp) > MaxChirpLength
    ensures r.Ok? ==> r.value == Filtered(chirp) && Utf8Len(r.value) <= MaxChirpLength
  {
    FilteredNoLonger(chirp);
    if Utf8Len(chirp) > MaxChirpLength then Err(ChirpTooLong) else Ok(Filtered(chirp))
  }

  /** validateAndCleanChirp: the length check, then filter. */
  method ValidateAndCleanChirp(chirp: string) returns (r: Result<string, ChirpError>)
    ensures r == CleanChirp(chirp)
  {
    if Utf8Len(chirp) > MaxChirpLength {
      return Err(ChirpTooLong);
    }
    var cleaned := Filter(chirp);
    return Ok(cleaned);
  }
}
