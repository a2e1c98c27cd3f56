/** The chirp validation handler (src/api/chirps.ts): a body longer than 140
    characters is refused with a BadRequestError; otherwise the body is split
    on single spaces, every token whose lower-cased form is a bad word becomes
    "****", and the tokens are joined back with single spaces. */
module Chirps {
  import opened Wrappers
  import opened Errors

  /** The longest accepted body, in JavaScript `length` units (UTF-16 code units). */
  const MaxChirpLength: nat := 140
  const TooLongMessage: string := "Chirp is too long. Max length is 140"
  const BadWords: seq<string> := ["kerfuffle", "sharbert", "fornax"]
  const Censored: string := "****"

  // ---------------------------------------------------------------------------
  // JavaScript string length

  /** Characters outside the Basic Multilingual Plane take two UTF-16 code units. */
  function CodeUnits(c: char): nat {
    if c as int >= 0x1_0000 then 2 else 1
  }

  /** The `length` JavaScript reports for a string. */
  function Utf16Length(s: string): (n: nat)
    ensures |s| <= n <= 2 * |s|
  {
    if s == [] then 0 else CodeUnits(s[0]) + Utf16Length(s[1..])
  }

  predicate InBmp(s: string) {
    forall i :: 0 <= i < |s| ==> s[i] as int < 0x1_0000
  }

  lemma {:induction false} Utf16LengthAppend(a: string, b: string)
    ensures Utf16Length(a + b) == Utf16Length(a) + Utf16Length(b)
    decreases |a|
  {
    if a == [] {
      assert a + b == b;
    } else {
      assert (a + b)[0] == a[0];
      assert (a + b)[1..] == a[1..] + b;
      Utf16LengthAppend(a[1..], b);
    }
  }

  /** A string of Basic Multilingual Plane characters has one code unit per character. */
  lemma {:induction false} Utf16LengthInBmp(s: string)
    requires InBmp(s)
    ensures Utf16Length(s) == |s|
    decreases |s|
  {
    if s != [] {
      assert InBmp(s[1..]) by {
        forall i | 0 <= i < |s[1..]| ensures s[1..][i] as int < 0x1_0000 {
          assert s[1..][i] == s[i + 1];
        }
      }
      Utf16LengthInBmp(s[1..]);
    }
  }

  // ---------------------------------------------------------------------------
  // Lower-casing and the bad-word test

  /** `toLowerCase` on one character, as far as it can produce an ASCII letter:
      'A'..'Z' and the KELVIN SIGN (U+212A, lower-cased to 'k'). Every other
      character is left as it is. */
  function LowerChar(c: char): (r: char)
    ensures ('a' <= r <= 'z') <==> ('a' <= c <= 'z' || 'A' <= c <= 'Z' || c == '\U{212A}')
    ensures 'A' <= c <= 'Z' ==> r as int == c as int + 32
    ensures r == ' ' <==> c == ' '
  {
    if 'A' <= c <= 'Z' then (c as int + 32) as char
    else if c == '\U{212A}' then 'k'
    else c
  }

  /** `toLowerCase` on a string, character by character: same length, and a
      space exactly where the original has one. */
  function ToLower(s: string): (r: string)
    ensures |r| == |s|
    ensures forall i :: 0 <= i < |s| ==> r[i] == LowerChar(s[i])
    ensures ' ' in r <==> ' ' in s
  {
    seq(|s|, i requires 0 <= i < |s| => LowerChar(s[i]))
  }

  /** `badWords.includes(word.toLowerCase())`. Every bad word is six to nine
      letters long, so a matching token has that length and no space. */
  predicate IsBadWord(word: string)
    ensures IsBadWord(word) ==> 6 <= |word| <= 9 && ' ' !in word
  {
    ToLower(word) in BadWords
  }

  /** The callback of `map`: a bad word becomes "****", any other token stays. */
  function CleanWord(word: string): (r: string)
    ensures r == word || (IsBadWord(word) && r == Censored)
    ensures IsBadWord(word) ==> r == Censored
    ensures |r| <= |word|
  {
    if IsBadWord(word) then Censored else word
  }

  /** The `map` over the tokens: one cleaned token per token, in place, none longer. */
  function CleanWords(words: seq<string>): (r: seq<string>)
    ensures |r| == |words|
    ensures forall i :: 0 <= i < |words| ==> r[i] == CleanWord(words[i])
    ensures forall i :: 0 <= i < |words| ==> |r[i]| <= |words[i]|
  {
    seq(|words|, i requires 0 <= i < |words| => CleanWord(words[i]))
  }

  /** Matching ignores case but never looks inside a token. */
  lemma WholeTokenMatching()
    ensures IsBadWord("Fornax") && IsBadWord("KERFUFFLE") && IsBadWord("sharbert")
    ensures IsBadWord("\U{212A}erfuffle")
    ensures !IsBadWord("fornax!") && !IsBadWord("kerfufflez") && !IsBadWord("")
    ensures !IsBadWord(Censored)
  {
    assert ToLower("Fornax") == "fornax";
    assert ToLower("KERFUFFLE") == "kerfuffle";
    assert ToLower("sharbert") == "sharbert";
    assert ToLower("\U{212A}erfuffle") == "kerfuffle";
    assert ToLower(Censored) == Censored;
  }

  /** Case never matters: a token matches exactly when its lower-cased form does. */
  lemma MatchingIgnoresCase(word: string)
    ensures IsBadWord(ToLower(word)) == IsBadWord(word)
  {
    var once := ToLower(word);
    var twice := ToLower(once);
    forall i | 0 <= i < |word| ensures twice[i] == once[i] {
      var c := word[i];
      assert once[i] == LowerChar(c);
    }
    assert twice == once;
  }

  /** Matching is whole-token only: a bad word with anything added after it,
      or before it, is not a bad word. The three bad words differ in their
      first and in their last letter. */
  lemma MatchingIsWholeToken(bad: string, extra: string)
    requires bad in BadWords && extra != []
    ensures !IsBadWord(bad + extra)
    ensures !IsBadWord(extra + bad)
  {
    assert ToLower(bad) == bad by {
      assert ToLower("kerfuffle") == "kerfuffle";
      assert ToLower("sharbert") == "sharbert";
      assert ToLower("fornax") == "fornax";
    }
    var after := ToLower(bad + extra);
    assert after[0] == LowerChar(bad[0]) == bad[0];
    assert |after| > |bad|;
    var before := ToLower(extra + bad);
    var n := |before|;
    assert (extra + bad)[n - 1] == bad[|bad| - 1];
    assert before[n - 1] == LowerChar(bad[|bad| - 1]) == bad[|bad| - 1];
    assert n > |bad|;
  }

  /** A replaced token was at least six characters long, so replacing it never
      makes a chirp longer, and the replacement itself is never replaced. */
  lemma CleanWordShortens(word: string)
    ensures Utf16Length(CleanWord(word)) <= Utf16Length(word)
    ensures !IsBadWord(CleanWord(word))
    ensures ' ' !in word ==> ' ' !in CleanWord(word)
  {
    assert ToLower(Censored) == Censored;
    if IsBadWord(word) {
      assert |ToLower(word)| == |word| >= 6;
      Utf16LengthInBmp(Censored);
    }
  }

  // ---------------------------------------------------------------------------
  // split(" ") and join(" ")

  predicate NoSpaces(parts: seq<string>) {
    forall i :: 0 <= i < |parts| ==> ' ' !in parts[i]
  }

  /** JavaScript's `s.split(" ")`: one more part than there are spaces, with an
      empty part for each leading, trailing or doubled space. */
  function SplitOnSpace(s: string): (parts: seq<string>)
    ensures |parts| >= 1
    ensures NoSpaces(parts)
  {
    if s == [] then [""]
    else
      var rest := SplitOnSpace(s[1..]);
      if s[0] == ' ' then [""] + rest
      else [[s[0]] + rest[0]] + rest[1..]
  }

  /** There is one more token than the string has spaces. */
  lemma {:induction false} SplitCountsSpaces(s: string)
    ensures |SplitOnSpace(s)| == multiset(s)[' '] + 1
    decreases |s|
  {
    if s != [] {
      assert s == [s[0]] + s[1..];
      SplitCountsSpaces(s[1..]);
    }
  }

  /** JavaScript's `parts.join(" ")`. */
  function JoinWithSpace(parts: seq<string>): (s: string)
    ensures |parts| >= 1 ==> parts[0] <= s
  {
    if |parts| == 0 then ""
    else if |parts| == 1 then parts[0]
    else parts[0] + " " + JoinWithSpace(parts[1..])
  }

  /** The join of space-free parts has one space fewer than it has parts. */
  lemma {:induction false} JoinCountsSpaces(parts: seq<string>)
    requires |parts| >= 1 && NoSpaces(parts)
    ensures multiset(JoinWithSpace(parts))[' '] == |parts| - 1
    decreases |parts|
  {
    if |parts| >= 2 {
      assert NoSpaces(parts[1..]) by {
        forall i | 0 <= i < |parts[1..]| ensures ' ' !in parts[1..][i] {
          assert parts[1..][i] == parts[i + 1];
        }
      }
      JoinCountsSpaces(parts[1..]);
      assert ' ' !in parts[0];
      assert multiset(parts[0])[' '] == 0;
    }
  }

  /** Joining the parts of a split gives back the string. */
  lemma {:induction false} JoinSplit(s: string)
    ensures JoinWithSpace(SplitOnSpace(s)) == s
    decreases |s|
  {
    if s != [] {
      var rest := SplitOnSpace(s[1..]);
      JoinSplit(s[1..]);
      if s[0] == ' ' {
        assert ([""] + rest)[1..] == rest;
      } else if |rest| == 1 {
        assert [s[0]] + s[1..] == s;
      } else {
        var parts := [[s[0]] + rest[0]] + rest[1..];
        assert parts[1..] == rest[1..];
        assert [s[0]] + s[1..] == s;
      }
    }
  }

  /** Splitting a string that starts with a space-free word glues the word to
      the first part of the rest. */
  lemma {:induction false} SplitAfterWord(w: string, t: string)
    requires ' ' !in w
    ensures SplitOnSpace(w + t) == [w + SplitOnSpace(t)[0]] + SplitOnSpace(t)[1..]
    decreases |w|
  {
    var r := SplitOnSpace(t);
    if w == [] {
      assert w + t == t;
      assert w + r[0] == r[0];
      assert [r[0]] + r[1..] == r;
    } else {
      var s := w + t;
      assert s[0] == w[0] && w[0] != ' ';
      assert s[1..] == w[1..] + t;
      assert ' ' !in w[1..];
      SplitAfterWord(w[1..], t);
      var big := SplitOnSpace(s[1..]);
      assert big == [w[1..] + r[0]] + r[1..];
      assert SplitOnSpace(s) == [[s[0]] + big[0]] + big[1..];
      assert [w[0]] + (w[1..] + r[0]) == w + r[0];
    }
  }

  /** A leading space splits off an empty first token. */
  lemma SplitAfterSpace(t: string)
    ensures SplitOnSpace(" " + t) == [""] + SplitOnSpace(t)
  {
    assert (" " + t)[1..] == t;
  }

  /** Splitting a join of at least one space-free part gives back the parts. */
  lemma {:induction false} SplitJoin(parts: seq<string>)
    requires |parts| >= 1 && NoSpaces(parts)
    ensures SplitOnSpace(JoinWithSpace(parts)) == parts
    decreases |parts|
  {
    var w := parts[0];
    assert ' ' !in w;
    if |parts| == 1 {
      SplitAfterWord(w, "");
      assert w + "" == w;
    } else {
      var rest := parts[1..];
      var j := JoinWithSpace(rest);
      assert NoSpaces(rest) by {
        forall i | 0 <= i < |rest| ensures ' ' !in rest[i] {
          assert rest[i] == parts[i + 1];
        }
      }
      SplitJoin(rest);
      SplitAfterSpace(j);
      SplitAfterWord(w, " " + j);
      assert JoinWithSpace(parts) == w + (" " + j);
      assert w + "" == w;
      assert [w] + rest == parts;
    }
  }

  /** Joining parts that are each no longer gives a string that is no longer. */
  lemma {:induction false} JoinUtf16LengthMonotone(a: seq<string>, b: seq<string>)
    requires |a| == |b|
    requires forall i :: 0 <= i < |a| ==> Utf16Length(a[i]) <= Utf16Length(b[i])
    ensures Utf16Length(JoinWithSpace(a)) <= Utf16Length(JoinWithSpace(b))
    decreases |a|
  {
    if |a| >= 2 {
      JoinUtf16LengthMonotone(a[1..], b[1..]);
      Utf16LengthAppend(a[0] + " ", JoinWithSpace(a[1..]));
      Utf16LengthAppend(b[0] + " ", JoinWithSpace(b[1..]));
      Utf16LengthAppend(a[0], " ");
      Utf16LengthAppend(b[0], " ");
    }
  }

  // ---------------------------------------------------------------------------
  // The handler

  /** The cleaned body for a body within the limit, or the BadRequestError the
      handler throws. On success the result keeps the token structure of the
      input (same number of space-separated tokens, each token cleaned in its
      own position) and is never longer than the input. */
  function CleanChirp(body: string): (r: Result<string, ApiError>)
    ensures r.Failure? <==> Utf16Length(body) > MaxChirpLength
    ensures r.Failure? ==> r.error == BadRequest(TooLongMessage)
    ensures r.Success? ==> Utf16Length(r.value) <= Utf16Length(body) <= MaxChirpLength
    ensures r.Success? ==> SplitOnSpace(r.value) == CleanWords(SplitOnSpace(body))
  {
    if Utf16Length(body) > MaxChirpLength then
      Failure(BadRequest(TooLongMessage))
    else
      var words := SplitOnSpace(body);
      var cleaned := CleanWords(words);
      CleanWordsShortensTokens(words);
      JoinUtf16LengthMonotone(cleaned, words);
      JoinSplit(body);
      SplitJoin(cleaned);
      Success(JoinWithSpace(cleaned))
  }

  /** Cleaning keeps the number of tokens, keeps space-free tokens space-free,
      and makes no token longer. */
  lemma CleanWordsShortensTokens(words: seq<string>)
    ensures |CleanWords(words)| == |words|
    ensures NoSpaces(words) ==> NoSpaces(CleanWords(words))
    ensures forall i :: 0 <= i < |words| ==>
      Utf16Length(CleanWords(words)[i]) <= Utf16Length(words[i])
  {
    forall i | 0 <= i < |words|
      ensures Utf16Length(CleanWords(words)[i]) <= Utf16Length(words[i])
      ensures ' ' !in words[i] ==> ' ' !in CleanWords(words)[i]
    {
      CleanWordShortens(words[i]);
    }
  }

  /** With no bad word among its tokens, an accepted body comes back unchanged:
      splitting on " " and joining with " " is the identity. */
  lemma CleanChirpKeepsCleanBody(body: string)
    requires Utf16Length(body) <= MaxChirpLength
    requires forall i :: 0 <= i < |SplitOnSpace(body)| ==> !IsBadWord(SplitOnSpace(body)[i])
    ensures CleanChirp(body) == Success(body)
  {
    var words := SplitOnSpace(body);
    assert CleanWords(words) == words;
    JoinSplit(body);
  }

  /** Cleaning an accepted chirp a second time changes nothing. */
  lemma CleanChirpIdempotent(body: string)
    requires CleanChirp(body).Success?
    ensures CleanChirp(CleanChirp(body).value) == CleanChirp(body)
  {
    var out := CleanChirp(body).value;
    var words := SplitOnSpace(body);
    forall i | 0 <= i < |SplitOnSpace(out)| ensures !IsBadWord(SplitOnSpace(out)[i]) {
      CleanWordShortens(words[i]);
    }
    CleanChirpKeepsCleanBody(out);
  }

  /** For text of Basic Multilingual Plane characters the limit is inclusive:
      exactly the bodies of at most 140 characters are accepted. */
  lemma CleanChirpLimitInclusive(body: string)
    requires InBmp(body)
    ensures CleanChirp(body).Success? <==> |body| <= MaxChirpLength
  {
    Utf16LengthInBmp(body);
  }
}
