/** The token and string helpers of the schema-search script: word variants,
    full-text sanitising, identifier splitting and acronyms, the search blob
    stored for each catalog column, the parsing of a question into keywords
    and inline filters, and the one-line rendering of a result.
    `normalize_token` (Unicode NFKD decomposition, mark removal, lower case)
    is a parameter `normalize` of the members that call it. */
module SchemaSearch {
  import opened Base

  // ---------------------------------------------------------------------
  // Character classes
  // ---------------------------------------------------------------------

  /** The characters of `WORD_PATTERN`: ASCII letters and digits and the
      accented Spanish letters. */
  predicate IsWordChar(c: char)
  {
    ('A' <= c <= 'Z') || ('a' <= c <= 'z') || ('0' <= c <= '9') || IsSpanishAccented(c)
  }

  /** The letters "ÁÉÍÓÚÜÑáéíóúüñ" of `WORD_PATTERN`. */
  predicate IsSpanishAccented(c: char)
  {
    || c == 'Á' || c == 'É' || c == 'Í' || c == 'Ó' || c == 'Ú' || c == 'Ü' || c == 'Ñ'
    || c == 'á' || c == 'é' || c == 'í' || c == 'ó' || c == 'ú' || c == 'ü' || c == 'ñ'
  }

  /** Where `CAMEL_SPLIT_PATTERN` (`(?=[A-Z])`) matches: ASCII capitals only. */
  predicate IsAsciiUpper(c: char)
  {
    'A' <= c <= 'Z'
  }

  /** The vowels removed to form the consonant skeleton of a token. */
  predicate IsVowel(c: char)
  {
    c in "aeiouáéíóúü"
  }

  /** The characters `sanitize_for_fts` keeps: `[0-9a-z_]`. */
  predicate IsFtsChar(c: char)
  {
    ('0' <= c <= '9') || ('a' <= c <= 'z') || c == '_'
  }

  /** The punctuation a question word is stripped of: `¿?!.:,;()`. */
  predicate IsQuestionPunct(c: char)
  {
    c in "¿?!.:,;()"
  }

  predicate IsNotSpace(c: char)
  {
    !IsSpace(c)
  }

  // ---------------------------------------------------------------------
  // Character filters
  // ---------------------------------------------------------------------

  /** Filtering a string that already passes keeps it whole. */
  lemma {:induction false} FilterOfKept(s: string, keep: char -> bool)
    requires forall c :: c in s ==> keep(c)
    ensures Filter(s, keep) == s
    decreases |s|
  {
    if s != [] {
      var front := s[..|s| - 1];
      var x := s[|s| - 1];
      assert s == front + [x];
      forall c | c in front
        ensures keep(c)
      {
        assert c in s;
      }
      FilterOfKept(front, keep);
      assert keep(x);
    }
  }

  /** `sanitize_for_fts`: every character outside `[0-9a-z_]` is removed. */
  function SanitizeForFts(keyword: string): (r: string)
    ensures |r| <= |keyword|
    ensures forall c :: c in r ==> IsFtsChar(c)
    ensures forall c :: c in keyword && IsFtsChar(c) ==> c in r
  {
    Filter(keyword, IsFtsChar)
  }

  /** A keyword made only of `[0-9a-z_]` is left as it is, so sanitising is
      idempotent. */
  lemma SanitizeForFtsIdempotent(keyword: string)
    ensures (forall c :: c in keyword ==> IsFtsChar(c)) ==> SanitizeForFts(keyword) == keyword
    ensures SanitizeForFts(SanitizeForFts(keyword)) == SanitizeForFts(keyword)
  {
    if forall c :: c in keyword ==> IsFtsChar(c) {
      FilterOfKept(keyword, IsFtsChar);
    }
    FilterOfKept(SanitizeForFts(keyword), IsFtsChar);
  }

  // ---------------------------------------------------------------------
  // Runs of characters, identifier splitting
  // ---------------------------------------------------------------------

  /** The length of the run of `inRun` characters that starts `s`. */
  function RunLength(s: string, inRun: char -> bool): (n: nat)
    ensures n <= |s|
    ensures forall i :: 0 <= i < n ==> inRun(s[i])
    ensures n == |s| || !inRun(s[n])
    decreases |s|
  {
    if s != [] && inRun(s[0]) then 1 + RunLength(s[1..], inRun) else 0
  }

  /** The maximal runs of `inRun` characters of `s`, left to right: what
      `re.findall` returns for a `[...]+` pattern, and `str.split()` for the
      characters that are not whitespace. */
  function Runs(s: string, inRun: char -> bool): (r: seq<string>)
    ensures forall w :: w in r ==> w != [] && forall c :: c in w ==> inRun(c)
    decreases |s|
  {
    if s == [] then []
    else if !inRun(s[0]) then Runs(s[1..], inRun)
    else
      var n := RunLength(s, inRun);
      assert forall c :: c in s[..n] ==> inRun(c);
      [s[..n]] + Runs(s[n..], inRun)
  }

  /** Runs never split a stretch of separators-free text: a string made of
      run characters is one run. */
  lemma RunsOfOneRun(s: string, inRun: char -> bool)
    requires s != [] && forall c :: c in s ==> inRun(c)
    ensures Runs(s, inRun) == [s]
  {
    var n := RunLength(s, inRun);
    assert n == |s|;
    assert s[..n] == s && s[n..] == [];
  }

  /** The substitution of `CAMEL_SPLIT_PATTERN` on the text after its first
      character: a space before every ASCII capital. */
  function SpaceBeforeUpper(s: string): (r: string)
    ensures |r| >= |s|
    ensures forall i :: 0 <= i < |r| && IsAsciiUpper(r[i]) ==> i > 0 && r[i - 1] == ' '
    decreases |s|
  {
    if s == [] then []
    else
      var rest := SpaceBeforeUpper(s[1..]);
      if IsAsciiUpper(s[0]) then " " + [s[0]] + rest
      else
        assert forall i :: 1 <= i < |rest| + 1 ==> ([s[0]] + rest)[i] == rest[i - 1];
        [s[0]] + rest
  }

  /** `CAMEL_SPLIT_PATTERN.sub(" ", s)`: the lookbehind `(?<!^)` keeps the
      first position out, so every capital but a leading one is preceded by
      a space. */
  function CamelSpaced(s: string): (r: string)
    ensures |r| >= |s|
    ensures forall i :: 0 < i < |r| && IsAsciiUpper(r[i]) ==> r[i - 1] == ' '
  {
    if s == [] then []
    else
      var rest := SpaceBeforeUpper(s[1..]);
      assert forall i :: 1 <= i < |rest| + 1 ==> ([s[0]] + rest)[i] == rest[i - 1];
      [s[0]] + rest
  }

  /** `split_identifier`: `_`, `-` and `/` become spaces, a space goes in
      before each inner capital, and the word runs are returned. Every part
      is a non-empty run of word characters. */
  function SplitIdentifier(value: string): (r: seq<string>)
    ensures forall w :: w in r ==> w != [] && forall c :: c in w ==> IsWordChar(c)
  {
    if value == [] then []
    else
      var replaced := Replace(Replace(Replace(value, "_", " "), "-", " "), "/", " ");
      Runs(CamelSpaced(replaced), IsWordChar)
  }

  /** The strings of `ws` written one after the other. */
  function Concat(ws: seq<string>): (r: string)
    ensures ws == [] ==> r == []
    decreases |ws|
  {
    if ws == [] then [] else ws[0] + Concat(ws[1..])
  }

  /** A run starting after a separator stops before it. */
  lemma {:induction false} RunLengthStopsAtSeparator(a: string, c: char, b: string, inRun: char -> bool)
    requires !inRun(c)
    ensures RunLength(a + [c] + b, inRun) == RunLength(a, inRun)
    decreases |a|
  {
    var s := a + [c] + b;
    if a == [] {
      assert s[0] == c;
    } else if inRun(a[0]) {
      assert s[0] == a[0] && s[1..] == a[1..] + [c] + b;
      RunLengthStopsAtSeparator(a[1..], c, b, inRun);
    } else {
      assert s[0] == a[0];
    }
  }

  /** Written one after the other, the runs are exactly the run characters
      of `s`, in order: nothing is lost, added or reordered. */
  lemma {:induction false} RunsCoverRunCharacters(s: string, inRun: char -> bool)
    ensures Concat(Runs(s, inRun)) == Filter(s, inRun)
    decreases |s|
  {
    if s != [] {
      assert s == [s[0]] + s[1..];
      FilterConcat([s[0]], s[1..], inRun);
      assert [s[0]][..0] == [];
      if !inRun(s[0]) {
        RunsCoverRunCharacters(s[1..], inRun);
      } else {
        var n := RunLength(s, inRun);
        assert s == s[..n] + s[n..];
        FilterConcat(s[..n], s[n..], inRun);
        assert forall c :: c in s[..n] ==> inRun(c);
        FilterAllKept(s[..n], inRun);
        RunsCoverRunCharacters(s[n..], inRun);
        var ws := [s[..n]] + Runs(s[n..], inRun);
        assert ws[1..] == Runs(s[n..], inRun);
      }
    }
  }

  /** Runs are maximal: a separator splits the runs of the text around it
      into the runs of the text before it and of the text after it. */
  lemma {:induction false} RunsSplitAtSeparator(a: string, c: char, b: string, inRun: char -> bool)
    requires !inRun(c)
    ensures Runs(a + [c] + b, inRun) == Runs(a, inRun) + Runs(b, inRun)
    decreases |a|
  {
    var s := a + [c] + b;
    if a == [] {
      assert s[0] == c && s[1..] == b;
    } else if !inRun(a[0]) {
      assert s[0] == a[0] && s[1..] == a[1..] + [c] + b;
      RunsSplitAtSeparator(a[1..], c, b, inRun);
    } else {
      RunLengthStopsAtSeparator(a, c, b, inRun);
      var n := RunLength(a, inRun);
      assert s[0] == a[0];
      assert s[..n] == a[..n] && s[n..] == a[n..] + [c] + b;
      RunsSplitAtSeparator(a[n..], c, b, inRun);
    }
  }

  /** Takes out every space that directly precedes an ASCII capital: the
      inverse of the camel split. */
  function DropCamelSpaces(r: string): (s: string)
    ensures |s| <= |r|
    decreases |r|
  {
    if r == [] then []
    else if |r| >= 2 && r[0] == ' ' && IsAsciiUpper(r[1]) then [r[1]] + DropCamelSpaces(r[2..])
    else [r[0]] + DropCamelSpaces(r[1..])
  }

  lemma {:induction false} SpaceBeforeUpperUndone(s: string)
    ensures DropCamelSpaces(SpaceBeforeUpper(s)) == s
    decreases |s|
  {
    if s != [] {
      var rest := SpaceBeforeUpper(s[1..]);
      SpaceBeforeUpperUndone(s[1..]);
      if IsAsciiUpper(s[0]) {
        var r := " " + [s[0]] + rest;
        assert r[0] == ' ' && r[1] == s[0] && r[2..] == rest;
      } else {
        var r := [s[0]] + rest;
        assert r[1..] == rest;
        assert |r| >= 2 ==> r[1] == rest[0] && !IsAsciiUpper(r[1]);
      }
    }
  }

  /** The camel split only inserts spaces: taking them out again gives back
      the text it was applied to. */
  lemma CamelSpacedOnlyInsertsSpaces(s: string)
    ensures DropCamelSpaces(CamelSpaced(s)) == s
  {
    if s != [] {
      var rest := SpaceBeforeUpper(s[1..]);
      SpaceBeforeUpperUndone(s[1..]);
      var r := [s[0]] + rest;
      assert r[1..] == rest;
      assert |r| >= 2 ==> r[1] == rest[0] && !IsAsciiUpper(r[1]);
    }
  }

  /** A space is no word character; an ASCII capital is one. */
  lemma SpaceIsNoWordChar(c: char)
    ensures c == ' ' ==> !IsWordChar(c)
    ensures IsAsciiUpper(c) ==> IsWordChar(c)
  {
  }

  lemma {:induction false} SpaceBeforeUpperKeepsWordChars(s: string)
    ensures Filter(SpaceBeforeUpper(s), IsWordChar) == Filter(s, IsWordChar)
    decreases |s|
  {
    if s != [] {
      SpaceBeforeUpperStep(s);
      SpaceBeforeUpperKeepsWordChars(s[1..]);
      FilterConsCongruent(s[0], SpaceBeforeUpper(s[1..]), s[1..], IsWordChar);
      assert [s[0]] + s[1..] == s;
    }
  }

  /** One step of the camel split, as far as word characters go: the first
      character is kept and the rest is split. */
  lemma SpaceBeforeUpperStep(s: string)
    requires s != []
    ensures Filter(SpaceBeforeUpper(s), IsWordChar) == Filter([s[0]] + SpaceBeforeUpper(s[1..]), IsWordChar)
  {
    var rest := SpaceBeforeUpper(s[1..]);
    if IsAsciiUpper(s[0]) {
      assert SpaceBeforeUpper(s) == [' '] + ([s[0]] + rest);
      SpaceIsNoWordChar(' ');
      FilterCons(' ', [s[0]] + rest, IsWordChar);
    } else {
      assert SpaceBeforeUpper(s) == [s[0]] + rest;
    }
  }

  /** Replacing a separator by a space keeps the word characters. */
  lemma {:induction false} ReplaceSeparatorKeepsWordChars(s: string, sep: char)
    requires !IsWordChar(sep)
    ensures Filter(Replace(s, [sep], " "), IsWordChar) == Filter(s, IsWordChar)
    decreases |s|
  {
    if s != [] {
      ReplaceSeparatorKeepsWordChars(s[1..], sep);
      var rest := Replace(s[1..], [sep], " ");
      assert s == [s[0]] + s[1..];
      FilterCons(s[0], s[1..], IsWordChar);
      if s[0] == sep {
        assert s[..1] == [sep] && s[1..] == s[|[sep]|..];
        assert Replace(s, [sep], " ") == [' '] + rest;
        SpaceIsNoWordChar(' ');
        FilterCons(' ', rest, IsWordChar);
      } else {
        assert s[..1] != [sep];
        assert Replace(s, [sep], " ") == [s[0]] + rest;
        FilterCons(s[0], rest, IsWordChar);
      }
    }
  }

  lemma CamelSpacedWordChars(s: string)
    ensures Filter(CamelSpaced(s), IsWordChar) == Filter(s, IsWordChar)
  {
    if s != [] {
      var rest := SpaceBeforeUpper(s[1..]);
      SpaceBeforeUpperKeepsWordChars(s[1..]);
      assert s == [s[0]] + s[1..];
      assert CamelSpaced(s) == [s[0]] + rest;
      FilterCons(s[0], s[1..], IsWordChar);
      FilterCons(s[0], rest, IsWordChar);
    }
  }

  /** Turning `_`, `-` and `/` into spaces keeps the word characters. */
  lemma SeparatorsKeepWordChars(value: string)
    ensures Filter(Replace(Replace(Replace(value, "_", " "), "-", " "), "/", " "), IsWordChar) == Filter(value, IsWordChar)
  {
    assert !IsWordChar('_') && !IsWordChar('-') && !IsWordChar('/');
    var r1 := Replace(value, "_", " ");
    var r2 := Replace(r1, "-", " ");
    ReplaceSeparatorKeepsWordChars(value, '_');
    ReplaceSeparatorKeepsWordChars(r1, '-');
    ReplaceSeparatorKeepsWordChars(r2, '/');
  }

  /** The parts of an identifier, written one after the other, are exactly
      its word characters, in order. */
  lemma SplitIdentifierKeepsWordChars(value: string)
    ensures Concat(SplitIdentifier(value)) == Filter(value, IsWordChar)
  {
    if value != [] {
      var spaced := Replace(Replace(Replace(value, "_", " "), "-", " "), "/", " ");
      SeparatorsKeepWordChars(value);
      CamelSpacedWordChars(spaced);
      RunsCoverRunCharacters(CamelSpaced(spaced), IsWordChar);
    }
  }

  // ---------------------------------------------------------------------
  // Acronyms
  // ---------------------------------------------------------------------

  /** The first character of every non-empty part, in order. */
  function Initials(parts: seq<string>): (r: string)
    ensures |r| <= |parts|
    ensures (forall i :: 0 <= i < |parts| ==> parts[i] != []) ==>
      |r| == |parts| && forall i :: 0 <= i < |parts| ==> r[i] == parts[i][0]
    decreases |parts|
  {
    if parts == [] then ""
    else
      var rest := Initials(parts[1..]);
      assert forall i :: 0 <= i < |parts| - 1 ==> parts[1..][i] == parts[i + 1];
      (if parts[0] != "" then [parts[0][0]] else "") + rest
  }

  /** `build_acronym`: the normalised initials of the identifier's parts,
      kept only when at least two characters long. */
  function BuildAcronym(text: string, normalize: string -> string): (r: string)
    ensures r == "" || |r| >= 2
    ensures r != "" ==> r == normalize(Initials(SplitIdentifier(text)))
    ensures |normalize(Initials(SplitIdentifier(text)))| >= 2 ==> r == normalize(Initials(SplitIdentifier(text)))
  {
    var acronym := normalize(Initials(SplitIdentifier(text)));
    if |acronym| >= 2 then acronym else ""
  }

  /** An identifier of a single part has no acronym when the normalisation
      does not lengthen its one initial. */
  lemma SinglePartHasNoAcronym(text: string, normalize: string -> string)
    requires |SplitIdentifier(text)| <= 1
    requires |normalize(Initials(SplitIdentifier(text)))| <= |Initials(SplitIdentifier(text))|
    ensures BuildAcronym(text, normalize) == ""
  {
  }

  // ---------------------------------------------------------------------
  // Word variants
  // ---------------------------------------------------------------------

  /** The characters of `token` that are not vowels, in order. */
  function ConsonantSkeleton(token: string): (r: string)
    ensures |r| <= |token|
    decreases |token|
  {
    if token == [] then []
    else (if IsVowel(token[0]) then [] else [token[0]]) + ConsonantSkeleton(token[1..])
  }

  /** The skeleton keeps exactly the characters of the token that are not vowels. */
  lemma {:induction false} ConsonantSkeletonChars(token: string)
    ensures forall c :: c in ConsonantSkeleton(token) <==> c in token && !IsVowel(c)
    decreases |token|
  {
    if token != [] {
      ConsonantSkeletonChars(token[1..]);
      assert token == [token[0]] + token[1..];
    }
  }

  /** The "-cion" variant as written: `token[:-3] + "ción"` keeps the "c" of
      the suffix and adds another. */
  function CionVariantAsWritten(token: string): string
    requires EndsWith(token, "cion")
  {
    token[..|token| - 3] + "ción"
  }

  /** The "-cion" variant as intended: the suffix "cion" becomes "ción",
      so the variant is the token with its "o" accented and nothing else
      changed. */
  function CionVariant(token: string): (r: string)
    requires EndsWith(token, "cion")
    ensures |r| == |token| && EndsWith(r, "ción")
    ensures r[|token| - 2] == 'ó'
    ensures forall i :: 0 <= i < |token| && i != |token| - 2 ==> r[i] == token[i]
  {
    token[..|token| - 4] + "ción"
  }

  /** The variant as written is one character longer than the token and ends
      in "cción", so it never is the accented word. */
  lemma CionVariantAsWrittenDoublesC(token: string)
    requires EndsWith(token, "cion")
    ensures |CionVariantAsWritten(token)| == |token| + 1
    ensures EndsWith(CionVariantAsWritten(token), "cción")
    ensures CionVariantAsWritten(token) != CionVariant(token)
  {
    var r := CionVariantAsWritten(token);
    assert token[|token| - 4] == 'c';
    assert r[|r| - 5..] == [token[|token| - 4]] + "ción";
  }

  /** "accion" as written becomes "accción"; as intended, "acción". */
  lemma AccionVariant()
    ensures CionVariantAsWritten("accion") == "accción"
    ensures CionVariant("accion") == "acción"
  {
    assert EndsWith("accion", "cion") by {
      assert "accion"[2..] == "cion";
    }
    assert "accion"[..3] == "acc";
    assert "accion"[..2] == "ac";
  }

  /** `generate_word_variants` as a set (the list it returns comes from a set
      and has no meaningful order): the token itself; its stem without
      "es" and its singular when longer than 3 and ending so, its plural
      otherwise; the "num"/"numero" spellings; the "-cion" variant as
      written (`CionVariantAsWritten`) of a "-cion" token; the consonant
      skeleton when at least three long; the first four characters of a
      token longer than 4. The empty string is never a variant. */
  function WordVariants(token: string): (r: set<string>)
    ensures "" !in r
  {
    var n := |token|;
    var v4 := SpellingVariants(token);
    var v5 := if EndsWith(token, "cion") then v4 + {CionVariantAsWritten(token)} else v4;
    var v6 := if |ConsonantSkeleton(token)| >= 3 then v5 + {ConsonantSkeleton(token)} else v5;
    var v7 := if n > 4 then v6 + {token[..4]} else v6;
    v7 - {""}
  }

  /** The first rules: the token, its "es"/"s" forms and its "num"/"numero" spellings. */
  function SpellingVariants(token: string): set<string>
  {
    var n := |token|;
    var v1 := if EndsWith(token, "es") && n > 3 then {token} + {token[..n - 2]} else {token};
    var v2 := if EndsWith(token, "s") && n > 3 then v1 + {token[..n - 1]} else v1 + {token + "s"};
    var v3 := if StartsWith(token, "num") then v2 + {Replace(token, "num", "numero")} else v2;
    if Contains(token, "numero") then v3 + {Replace(token, "numero", "num")} else v3
  }

  /** The first half of `generate_word_variants`: the set starts as the
      token and gains its "es"/"s" forms and its "num"/"numero" spellings. */
  method CollectSpellingVariants(token: string) returns (variants: set<string>)
    ensures variants == SpellingVariants(token)
  {
    variants := {token};
    if EndsWith(token, "es") && |token| > 3 {
      variants := variants + {token[..|token| - 2]};
    }
    if EndsWith(token, "s") && |token| > 3 {
      variants := variants + {token[..|token| - 1]};
    } else {
      variants := variants + {token + "s"};
    }
    if StartsWith(token, "num") {
      variants := variants + {Replace(token, "num", "numero")};
    }
    if Contains(token, "numero") {
      variants := variants + {Replace(token, "numero", "num")};
    }
  }

  /** `generate_word_variants`: the set grows one rule at a time and the
      empty string is dropped at the end. */
  method GenerateWordVariants(token: string) returns (variants: set<string>)
    ensures variants == WordVariants(token)
  {
    variants := CollectSpellingVariants(token);
    if EndsWith(token, "cion") {
      variants := variants + {CionVariantAsWritten(token)};
    }
    var consonants := ConsonantSkeleton(token);
    if |consonants| >= 3 {
      variants := variants + {consonants};
    }
    if |token| > 4 {
      variants := variants + {token[..4]};
    }
    variants := variants - {""};
  }

  /** A non-empty token is among its own variants; the empty token has only
      "s". */
  lemma VariantsContainToken(token: string)
    ensures token != "" ==> token in WordVariants(token)
    ensures token == "" ==> WordVariants(token) == {"s"}
  {
    if token == "" {
      assert !Contains(token, "numero");
      assert ConsonantSkeleton(token) == "";
      assert token + "s" == "s";
      assert SpellingVariants(token) == {"", "s"};
    }
  }

  /** A token longer than 3 that ends in "s" gains its singular (and, ending
      in "es", its stem without "es"); any other token gains its plural. */
  lemma VariantsSingularPlural(token: string)
    ensures EndsWith(token, "s") && |token| > 3 ==> token[..|token| - 1] in WordVariants(token)
    ensures EndsWith(token, "es") && |token| > 3 ==> token[..|token| - 2] in WordVariants(token)
    ensures !(EndsWith(token, "s") && |token| > 3) ==> token + "s" in WordVariants(token)
  {
  }

  /** A token longer than 4 gains its first four characters; one with at
      least three non-vowels gains its consonant skeleton; one ending in
      "cion" gains its "-cion" variant as written. */
  lemma VariantsPrefixSkeletonCion(token: string)
    ensures |token| > 4 ==> token[..4] in WordVariants(token)
    ensures |ConsonantSkeleton(token)| >= 3 ==> ConsonantSkeleton(token) in WordVariants(token)
    ensures EndsWith(token, "cion") ==> CionVariantAsWritten(token) in WordVariants(token)
  {
    var v := WordVariants(token);
    var v4 := SpellingVariants(token);
    var v5 := if EndsWith(token, "cion") then v4 + {CionVariantAsWritten(token)} else v4;
    var v6 := if |ConsonantSkeleton(token)| >= 3 then v5 + {ConsonantSkeleton(token)} else v5;
    var v7 := if |token| > 4 then v6 + {token[..4]} else v6;
    assert v == v7 - {""};
    if |token| > 4 {
      assert token[..4] in v7;
    }
    if |ConsonantSkeleton(token)| >= 3 {
      assert ConsonantSkeleton(token) in v6;
    }
    if EndsWith(token, "cion") {
      assert CionVariantAsWritten(token) in v5;
    }
  }

  // ---------------------------------------------------------------------
  // Code-point order, sorting
  // ---------------------------------------------------------------------

  /** Python's `<` on `str`: code point by code point, a proper prefix first. */
  predicate LexLess(a: string, b: string)
    decreases |a|
  {
    |b| > 0 && (|a| == 0 || a[0] < b[0] || (a[0] == b[0] && LexLess(a[1..], b[1..])))
  }

  lemma LexLessIrreflexive(a: string)
    ensures !LexLess(a, a)
  {
  }

  lemma {:induction false} LexLessTransitive(a: string, b: string, c: string)
    requires LexLess(a, b) && LexLess(b, c)
    ensures LexLess(a, c)
    decreases |a|
  {
    if |a| > 0 && a[0] == b[0] && b[0] == c[0] {
      LexLessTransitive(a[1..], b[1..], c[1..]);
    }
  }

  lemma {:induction false} LexLessTotal(a: string, b: string)
    requires a != b
    ensures LexLess(a, b) || LexLess(b, a)
    decreases |a|
  {
    if |a| > 0 && |b| > 0 && a[0] == b[0] {
      assert a == [a[0]] + a[1..] && b == [b[0]] + b[1..];
      LexLessTotal(a[1..], b[1..]);
    }
  }

  lemma {:induction false} LexLessAsymmetric(a: string, b: string)
    requires LexLess(a, b)
    ensures !LexLess(b, a)
    decreases |a|
  {
    if |a| > 0 && a[0] == b[0] {
      LexLessAsymmetric(a[1..], b[1..]);
    }
  }

  /** Every pair of distinct elements, in index order, is in ascending order. */
  predicate StrictlyAscending(s: seq<string>)
  {
    forall i, j :: 0 <= i < j < |s| ==> LexLess(s[i], s[j])
  }

  /** A new element below the least element of a set is the least of the larger set. */
  lemma LeastOfAdded(rest: set<string>, m: string, y: string)
    requires m in rest && forall x :: x in rest && x != m ==> LexLess(m, x)
    requires LexLess(y, m)
    ensures forall x :: x in rest + {y} && x != y ==> LexLess(y, x)
  {
    forall x | x in rest + {y} && x != y
      ensures LexLess(y, x)
    {
      if x != m {
        LexLessTransitive(y, m, x);
      }
    }
  }

  /** A new element above the least element of a set leaves it the least. */
  lemma LeastKept(rest: set<string>, m: string, y: string)
    requires m in rest && forall x :: x in rest && x != m ==> LexLess(m, x)
    requires LexLess(m, y)
    ensures forall x :: x in rest + {y} && x != m ==> LexLess(m, x)
  {
  }

  /** Adding one element to a set with a least element leaves a set with a
      least element. */
  lemma LeastOfInsert(rest: set<string>, m: string, y: string)
    requires m in rest && forall x :: x in rest && x != m ==> LexLess(m, x)
    ensures exists w :: w in rest + {y} && forall x :: x in rest + {y} && x != w ==> LexLess(w, x)
  {
    if y == m {
      assert rest + {y} == rest;
    } else {
      LexLessTotal(y, m);
      if LexLess(y, m) {
        LeastOfAdded(rest, m, y);
        assert y in rest + {y};
      } else {
        LeastKept(rest, m, y);
        assert m in rest + {y};
      }
    }
  }

  /** Taking one element out of a set leaves a smaller set that gives the
      set back when the element is put back. */
  lemma RemoveOne(s: set<string>, y: string)
    requires y in s
    ensures |s - {y}| < |s| && s == (s - {y}) + {y}
  {
  }

  /** Every non-empty finite set of strings has a least element. */
  lemma {:induction false} HasLeast(s: set<string>)
    requires s != {}
    ensures exists m :: m in s && forall x :: x in s && x != m ==> LexLess(m, x)
    decreases |s|
  {
    var y :| y in s;
    var rest := s - {y};
    RemoveOne(s, y);
    if rest == {} {
      assert forall x :: x in s ==> x == y;
    } else {
      HasLeast(rest);
      var m :| m in rest && forall x :: x in rest && x != m ==> LexLess(m, x);
      LeastOfInsert(rest, m, y);
    }
  }

  /** The least element of a non-empty set. */
  function Least(s: set<string>): (m: string)
    requires s != {}
    ensures m in s && forall x :: x in s && x != m ==> LexLess(m, x)
  {
    HasLeast(s);
    forall a, b | LexLess(a, b)
      ensures !LexLess(b, a)
    {
      LexLessAsymmetric(a, b);
    }
    var m :| m in s && forall x :: x in s && x != m ==> LexLess(m, x);
    m
  }

  /** `sorted(set(...))`: the elements of `s`, each once, in ascending order. */
  function SortedSet(s: set<string>): (r: seq<string>)
    ensures |r| == |s|
    ensures forall x :: x in r <==> x in s
    ensures StrictlyAscending(r)
    decreases |s|
  {
    if s == {} then []
    else
      var m := Least(s);
      var rest := SortedSet(s - {m});
      forall j | 0 <= j < |rest|
        ensures rest[j] in s && rest[j] != m
      {
        assert rest[j] in rest;
      }
      [m] + rest
  }

  /** A strictly ascending sequence has no element twice. */
  lemma AscendingIsDistinct(s: seq<string>)
    requires StrictlyAscending(s)
    ensures Distinct(s)
  {
    forall i, j | 0 <= i < j < |s|
      ensures s[i] != s[j]
    {
      LexLessIrreflexive(s[i]);
    }
  }

  /** Two strictly ascending sequences with the same elements are equal, so
      `SortedSet` is the one sorted, repeat-free listing of a set. */
  lemma {:induction false} AscendingListingIsUnique(a: seq<string>, b: seq<string>)
    requires StrictlyAscending(a) && StrictlyAscending(b)
    requires forall x :: x in a <==> x in b
    ensures a == b
    decreases |a|
  {
    assert a != [] ==> a[0] in a;
    assert b != [] ==> b[0] in b;
    if a != [] && b != [] {
      if a[0] != b[0] {
        assert a[0] in b;
        var j :| 0 <= j < |b| && b[j] == a[0];
        assert b[0] in a;
        var i :| 0 <= i < |a| && a[i] == b[0];
        assert LexLess(b[0], a[0]);
        assert LexLess(a[0], b[0]);
        LexLessAsymmetric(a[0], b[0]);
      } else {
        forall x
          ensures x in a[1..] <==> x in b[1..]
        {
          if x in a[1..] {
            var i :| 1 <= i < |a| && a[i] == x;
            assert LexLess(a[0], a[i]);
            LexLessIrreflexive(x);
            assert x in b;
            var j :| 0 <= j < |b| && b[j] == x;
          }
          if x in b[1..] {
            var j :| 1 <= j < |b| && b[j] == x;
            assert LexLess(b[0], b[j]);
            LexLessIrreflexive(x);
            assert x in a;
            var i :| 0 <= i < |a| && a[i] == x;
          }
        }
        AscendingListingIsUnique(a[1..], b[1..]);
        assert a == [a[0]] + a[1..] && b == [b[0]] + b[1..];
      }
    } else if a != [] {
      assert false;
    } else if b != [] {
      assert false;
    }
  }

  /** `" ".join(words)`. */
  function JoinSpace(words: seq<string>): string
    decreases |words|
  {
    if words == [] then ""
    else if |words| == 1 then words[0]
    else words[0] + " " + JoinSpace(words[1..])
  }

  // ---------------------------------------------------------------------
  // Search blob
  // ---------------------------------------------------------------------

  /** A catalog column. A missing or `None` field is the empty string: what
      `entry.get(field) or ""` makes of it in the search blob. */
  datatype CatalogEntry = CatalogEntry(database: string, schema: string, table: string, column: string,
                                       dataType: string, description: string)

  /** The fields the blob is built from, in the order they are read. */
  function BlobFields(e: CatalogEntry): seq<string>
  {
    [e.database, e.schema, e.table, e.column, e.dataType, e.description]
  }

  /** `texts`: each non-empty field, followed by the field with `_` as spaces. */
  function FieldTexts(values: seq<string>): (r: seq<string>)
    ensures forall t :: t in r ==> t != ""
    decreases |values|
  {
    if values == [] then []
    else
      var v := values[|values| - 1];
      var front := FieldTexts(values[..|values| - 1]);
      if v == "" then front
      else
        var u := Replace(v, "_", " ");
        assert |u| > 0 by {
          ReplaceSingleKeepsLength(v, '_', ' ');
        }
        front + [v, u]
  }

  /** Replacing one character by another keeps the length. */
  lemma {:induction false} ReplaceSingleKeepsLength(s: string, pat: char, rep: char)
    ensures |Replace(s, [pat], [rep])| == |s|
    decreases |s|
  {
    if |s| >= 1 {
      ReplaceSingleKeepsLength(s[1..], pat, rep);
    }
  }

  /** The variants of the normalised, non-empty forms of `words`. */
  function WordTokens(words: seq<string>, normalize: string -> string): (r: set<string>)
    ensures "" !in r
    decreases |words|
  {
    if words == [] then {}
    else
      var n := normalize(words[|words| - 1]);
      WordTokens(words[..|words| - 1], normalize) + (if n != "" then WordVariants(n) else {})
  }

  /** The variants of every part of every text. */
  function TextTokens(texts: seq<string>, normalize: string -> string): (r: set<string>)
    ensures "" !in r
    decreases |texts|
  {
    if texts == [] then {}
    else TextTokens(texts[..|texts| - 1], normalize) + WordTokens(SplitIdentifier(texts[|texts| - 1]), normalize)
  }

  /** The non-empty acronyms of `fields`. */
  function AcronymTokens(fields: seq<string>, normalize: string -> string): (r: set<string>)
    ensures "" !in r
    ensures forall a :: a in r ==> |a| >= 2
    decreases |fields|
  {
    if fields == [] then {}
    else
      var a := BuildAcronym(fields[|fields| - 1], normalize);
      AcronymTokens(fields[..|fields| - 1], normalize) + (if a != "" then {a} else {})
  }

  lemma FieldTextsStep(values: seq<string>, i: nat)
    requires i < |values|
    ensures FieldTexts(values[..i + 1]) == FieldTexts(values[..i]) + (if values[i] == "" then [] else [values[i], Replace(values[i], "_", " ")])
  {
    assert values[..i + 1][..i] == values[..i];
  }

  lemma WordTokensStep(words: seq<string>, j: nat, normalize: string -> string)
    requires j < |words|
    ensures WordTokens(words[..j + 1], normalize) == WordTokens(words[..j], normalize) + (if normalize(words[j]) != "" then WordVariants(normalize(words[j])) else {})
  {
    assert words[..j + 1][..j] == words[..j];
  }

  lemma TextTokensStep(texts: seq<string>, t: nat, normalize: string -> string)
    requires t < |texts|
    ensures TextTokens(texts[..t + 1], normalize) == TextTokens(texts[..t], normalize) + WordTokens(SplitIdentifier(texts[t]), normalize)
  {
    assert texts[..t + 1][..t] == texts[..t];
  }

  lemma AcronymTokensStep(fields: seq<string>, k: nat, normalize: string -> string)
    requires k < |fields|
    ensures AcronymTokens(fields[..k + 1], normalize) == AcronymTokens(fields[..k], normalize) + (if BuildAcronym(fields[k], normalize) != "" then {BuildAcronym(fields[k], normalize)} else {})
  {
    assert fields[..k + 1][..k] == fields[..k];
  }

  /** `set(tokens)` of `build_search_blob`: the variants from every field
      text plus the acronyms of the table and the column. */
  function BlobTokens(e: CatalogEntry, normalize: string -> string): (r: set<string>)
    ensures "" !in r
  {
    TextTokens(FieldTexts(BlobFields(e)), normalize) + AcronymTokens([e.table, e.column], normalize)
  }

  /** The first loop of `build_search_blob`: `texts`. */
  method CollectFieldTexts(e: CatalogEntry) returns (texts: seq<string>)
    ensures texts == FieldTexts(BlobFields(e))
  {
    var fields := BlobFields(e);
    texts := [];
    var i := 0;
    while i < |fields|
      invariant 0 <= i <= |fields|
      invariant texts == FieldTexts(fields[..i])
    {
      FieldTextsStep(fields, i);
      var value := fields[i];
      if value != "" {
        texts := texts + [value, Replace(value, "_", " ")];
      }
      i := i + 1;
    }
    assert fields[..i] == fields;
  }

  /** The nested loops of `build_search_blob` over the parts of every text. */
  method CollectTextTokens(texts: seq<string>, normalize: string -> string) returns (tokens: set<string>)
    ensures tokens == TextTokens(texts, normalize)
  {
    tokens := {};
    var t := 0;
    while t < |texts|
      invariant 0 <= t <= |texts|
      invariant tokens == TextTokens(texts[..t], normalize)
    {
      var words := SplitIdentifier(texts[t]);
      var j := 0;
      while j < |words|
        invariant 0 <= j <= |words|
        invariant tokens == TextTokens(texts[..t], normalize) + WordTokens(words[..j], normalize)
      {
        WordTokensStep(words, j, normalize);
        var normalized := normalize(words[j]);
        if normalized != "" {
          var variants := GenerateWordVariants(normalized);
          tokens := tokens + variants;
        }
        j := j + 1;
      }
      assert words[..j] == words;
      TextTokensStep(texts, t, normalize);
      t := t + 1;
    }
    assert texts[..t] == texts;
  }

  /** The acronym step, on top of a base set of tokens. */
  lemma AddedAcronymStep(base: set<string>, fields: seq<string>, k: nat, normalize: string -> string)
    requires k < |fields|
    ensures var a := BuildAcronym(fields[k], normalize);
      base + AcronymTokens(fields[..k + 1], normalize) == base + AcronymTokens(fields[..k], normalize) + (if a != "" then {a} else {})
  {
    AcronymTokensStep(fields, k, normalize);
  }

  /** The acronym loop of `build_search_blob`: the non-empty acronym of each
      of `fields` joins the tokens. */
  method AddAcronyms(base: set<string>, fields: seq<string>, normalize: string -> string) returns (tokens: set<string>)
    ensures tokens == base + AcronymTokens(fields, normalize)
  {
    tokens := base;
    var k := 0;
    while k < |fields|
      invariant 0 <= k <= |fields|
      invariant tokens == base + AcronymTokens(fields[..k], normalize)
    {
      AddedAcronymStep(base, fields, k, normalize);
      var acronym := BuildAcronym(fields[k], normalize);
      tokens := tokens + if acronym != "" then {acronym} else {};
      k := k + 1;
    }
    assert fields[..k] == fields;
  }

  /** `build_search_blob`: the field texts, their tokens and the acronyms of
      the table and the column, joined with spaces in ascending order, each
      once. */
  method BuildSearchBlob(e: CatalogEntry, normalize: string -> string) returns (blob: string)
    ensures blob == JoinSpace(SortedSet(BlobTokens(e, normalize)))
  {
    var texts := CollectFieldTexts(e);
    var tokens := CollectTextTokens(texts, normalize);
    tokens := AddAcronyms(tokens, [e.table, e.column], normalize);
    blob := JoinSpace(SortedSet(tokens));
  }

  /** The blob lists its tokens in ascending order, each once and none
      empty, and exactly the tokens of the entry. */
  lemma SearchBlobIsSortedAndDistinct(e: CatalogEntry, normalize: string -> string)
    ensures var s := SortedSet(BlobTokens(e, normalize));
      && StrictlyAscending(s) && Distinct(s)
      && (forall x :: x in s <==> x in BlobTokens(e, normalize))
      && (forall x :: x in s ==> x != "")
  {
    AscendingIsDistinct(SortedSet(BlobTokens(e, normalize)));
  }

  // ---------------------------------------------------------------------
  // Question parsing
  // ---------------------------------------------------------------------

  const STOPWORDS: set<string> := {
    "donde", "dónde", "esta", "está", "el", "la", "los", "las",
    "de", "del", "en", "que", "qué", "cual", "cuál", "para",
    "es", "se", "guarda", "almacena", "información", "info",
    "where", "is", "the", "of", "in", "on", "store", "stored", "information", "data"
  }

  /** The inline filters a question may carry. */
  datatype FilterKind = Db | Schema | Table | Column

  function FilterPrefix(k: FilterKind): string
  {
    match k
    case Db => "@db="
    case Schema => "@schema="
    case Table => "@table="
    case Column => "@column="
  }

  /** The filter a token sets, trying the prefixes in the order of the
      `if`/`elif` chain. */
  function FilterOf(token: string): (r: Option<FilterKind>)
    ensures r.Some? ==> StartsWith(token, FilterPrefix(r.value))
    ensures r.None? ==> forall k: FilterKind :: !StartsWith(token, FilterPrefix(k))
  {
    if StartsWith(token, "@db=") then Some(Db)
    else if StartsWith(token, "@schema=") then Some(Schema)
    else if StartsWith(token, "@table=") then Some(Table)
    else if StartsWith(token, "@column=") then Some(Column)
    else None
  }

  /** `db_filter`, `schema_filter`, `table_filter` and `column_filter`. */
  datatype SearchFilters = SearchFilters(db: Option<string>, schema: Option<string>, table: Option<string>, column: Option<string>)
  {
    function Get(k: FilterKind): Option<string>
    {
      match k
      case Db => db
      case Schema => schema
      case Table => table
      case Column => column
    }

    function Set(k: FilterKind, v: string): (f: SearchFilters)
      ensures f.Get(k) == Some(v)
      ensures forall k' :: k' != k ==> f.Get(k') == Get(k')
    {
      match k
      case Db => this.(db := Some(v))
      case Schema => this.(schema := Some(v))
      case Table => this.(table := Some(v))
      case Column => this.(column := Some(v))
    }
  }

  /** `s.split(c, 1)[1]`: what follows the first `c`. */
  function AfterFirst(s: string, c: char): string
    requires c in s
    decreases |s|
  {
    if s[0] == c then s[1..] else AfterFirst(s[1..], c)
  }

  /** Past a prefix that holds `c` only as its last character, the text after
      the first `c` is the text after the prefix. */
  lemma {:induction false} AfterFirstPastPrefix(s: string, p: string, c: char)
    requires |p| > 0 && StartsWith(s, p) && p[|p| - 1] == c
    requires forall i :: 0 <= i < |p| - 1 ==> p[i] != c
    ensures c in s && AfterFirst(s, c) == s[|p|..]
    decreases |p|
  {
    assert s[|p| - 1] == p[|p| - 1];
    if |p| > 1 {
      assert s[0] == p[0];
      assert StartsWith(s[1..], p[1..]) by {
        assert s[1..][..|p| - 1] == s[..|p|][1..];
      }
      AfterFirstPastPrefix(s[1..], p[1..], c);
      assert s[1..][|p| - 1..] == s[|p|..];
    }
  }

  /** A filter token's value is everything after its prefix: no prefix holds
      an `=` before its last character. */
  lemma FilterValueFollowsPrefix(token: string, k: FilterKind)
    requires StartsWith(token, FilterPrefix(k))
    ensures '=' in token
    ensures AfterFirst(token, '=') == token[|FilterPrefix(k)|..]
  {
    AfterFirstPastPrefix(token, FilterPrefix(k), '=');
  }

  /** What a question word becomes: stripped of `¿?!.:,;()` at both ends,
      then lower-cased. */
  function CleanWord(w: string): string
  {
    Lower(TrimStart(TrimEnd(w, IsQuestionPunct), IsQuestionPunct))
  }

  /** `raw_tokens`: the cleaned whitespace-separated words of the question. */
  function RawTokens(question: string): (r: seq<string>)
    ensures |r| == |Runs(question, IsNotSpace)|
  {
    var words := Runs(question, IsNotSpace);
    seq(|words|, i requires 0 <= i < |words| => CleanWord(words[i]))
  }

  /** A token that becomes a keyword: no filter, not empty, not a stopword. */
  predicate IsKeyword(token: string)
  {
    FilterOf(token).None? && token != "" && token !in STOPWORDS
  }

  datatype ParseState = ParseState(keywords: seq<string>, filters: SearchFilters)

  /** One pass of the token loop. */
  function ParseStep(st: ParseState, token: string): ParseState
  {
    match FilterOf(token)
    case Some(k) =>
      FilterValueFollowsPrefix(token, k);
      ParseState(st.keywords, st.filters.Set(k, AfterFirst(token, '=')))
    case None =>
      if token != "" && token !in STOPWORDS then ParseState(st.keywords + [token], st.filters)
      else st
  }

  /** The state after the loop has seen `tokens`. */
  function ParseTokens(tokens: seq<string>, init: SearchFilters): ParseState
    decreases |tokens|
  {
    if tokens == [] then ParseState([], init)
    else ParseStep(ParseTokens(tokens[..|tokens| - 1], init), tokens[|tokens| - 1])
  }

  lemma ParseTokensStep(tokens: seq<string>, i: nat, init: SearchFilters)
    requires i < |tokens|
    ensures ParseTokens(tokens[..i + 1], init) == ParseStep(ParseTokens(tokens[..i], init), tokens[i])
  {
    assert tokens[..i + 1][..i] == tokens[..i];
  }

  /** The keywords are the tokens that are neither filters, empty nor
      stopwords, in the question's order: a filter token never is one. */
  lemma {:induction false} ParsedKeywords(tokens: seq<string>, init: SearchFilters)
    ensures ParseTokens(tokens, init).keywords == Filter(tokens, IsKeyword)
    decreases |tokens|
  {
    if tokens != [] {
      ParsedKeywords(tokens[..|tokens| - 1], init);
    }
  }

  /** A filter no token names keeps the value the caller passed. */
  lemma {:induction false} UnnamedFilterUnchanged(tokens: seq<string>, init: SearchFilters, k: FilterKind)
    requires forall i :: 0 <= i < |tokens| ==> FilterOf(tokens[i]) != Some(k)
    ensures ParseTokens(tokens, init).filters.Get(k) == init.Get(k)
    decreases |tokens|
  {
    if tokens != [] {
      UnnamedFilterUnchanged(tokens[..|tokens| - 1], init, k);
    }
  }

  /** The last token naming a filter decides its value: the text after the
      prefix. */
  lemma {:induction false} LastFilterTokenWins(tokens: seq<string>, init: SearchFilters, k: FilterKind, j: nat)
    requires j < |tokens| && FilterOf(tokens[j]) == Some(k)
    requires forall i :: j < i < |tokens| ==> FilterOf(tokens[i]) != Some(k)
    ensures ParseTokens(tokens, init).filters.Get(k) == Some(tokens[j][|FilterPrefix(k)|..])
    decreases |tokens|
  {
    FilterValueFollowsPrefix(tokens[j], k);
    if j < |tokens| - 1 {
      LastFilterTokenWins(tokens[..|tokens| - 1], init, k, j);
    }
  }

  /** The token loop of `search_catalog`. */
  method ParseQuestion(question: string, init: SearchFilters) returns (keywords: seq<string>, filters: SearchFilters)
    ensures ParseState(keywords, filters) == ParseTokens(RawTokens(question), init)
  {
    var rawTokens := RawTokens(question);
    keywords := [];
    filters := init;
    var i := 0;
    while i < |rawTokens|
      invariant 0 <= i <= |rawTokens|
      invariant ParseState(keywords, filters) == ParseTokens(rawTokens[..i], init)
    {
      ParseTokensStep(rawTokens, i, init);
      var token := rawTokens[i];
      ghost var next := ParseStep(ParseState(keywords, filters), token);
      if StartsWith(token, "@db=") {
        FilterValueFollowsPrefix(token, Db);
        filters := filters.(db := Some(AfterFirst(token, '=')));
      } else if StartsWith(token, "@schema=") {
        FilterValueFollowsPrefix(token, Schema);
        filters := filters.(schema := Some(AfterFirst(token, '=')));
      } else if StartsWith(token, "@table=") {
        FilterValueFollowsPrefix(token, Table);
        filters := filters.(table := Some(AfterFirst(token, '=')));
      } else if StartsWith(token, "@column=") {
        FilterValueFollowsPrefix(token, Column);
        filters := filters.(column := Some(AfterFirst(token, '=')));
      } else if token != "" && token !in STOPWORDS {
        keywords := keywords + [token];
      }
      assert ParseState(keywords, filters) == next;
      i := i + 1;
    }
    assert rawTokens[..i] == rawTokens;
  }

  /** The search keywords once expanded: `['*']` stands in for an empty list. */
  function KeywordsOrWildcard(expanded: seq<string>): (r: seq<string>)
    ensures r != []
    ensures expanded != [] ==> r == expanded
    ensures expanded == [] ==> r == ["*"]
  {
    if expanded == [] then ["*"] else expanded
  }

  /** How `search_catalog` turns a question into a search: parse it into
      keywords and filters, expand the keywords (`expand_keywords`, a
      parameter here) and fall back to the wildcard when none is left. The
      keywords are never empty. */
  method SearchRequest(question: string, init: SearchFilters, expand: seq<string> -> seq<string>)
    returns (keywords: seq<string>, filters: SearchFilters)
    ensures keywords != []
    ensures filters == ParseTokens(RawTokens(question), init).filters
    ensures keywords == KeywordsOrWildcard(expand(Filter(RawTokens(question), IsKeyword)))
  {
    var parsed;
    parsed, filters := ParseQuestion(question, init);
    ParsedKeywords(RawTokens(question), init);
    keywords := expand(parsed);
    if keywords == [] {
      keywords := ["*"];
    }
  }

  // ---------------------------------------------------------------------
  // Formatting
  // ---------------------------------------------------------------------

  /** A description longer than 60 characters keeps its first 57 and gains
      "..."; the result never exceeds 60 characters. */
  function TruncateDescription(desc: string): (r: string)
    ensures |r| <= 60
    ensures |desc| <= 60 ==> r == desc
    ensures |desc| > 60 ==> |r| == 60 && r[..57] == desc[..57] && r[57..] == "..."
  {
    if |desc| > 60 then desc[..57] + "..." else desc
  }

  /** The fixed part of a result line. */
  function ResultHead(item: CatalogEntry): string
  {
    "DB: " + item.database + " | " + item.schema + "." + item.table + " -> " + item.column + " (" + item.dataType + ")"
  }

  /** `format_result`: the head, then ` | desc: ` and the truncated
      description when there is one. */
  function FormatResult(item: CatalogEntry): (r: string)
    ensures StartsWith(r, ResultHead(item))
    ensures item.description == "" ==> r == ResultHead(item)
    ensures item.description != "" ==> r[|ResultHead(item)|..] == " | desc: " + TruncateDescription(item.description)
    ensures |r| <= |ResultHead(item)| + 69
  {
    var desc := TruncateDescription(item.description);
    ResultHead(item) + (if desc != "" then " | desc: " + desc else "")
  }
}
