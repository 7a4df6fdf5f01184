/**
  The romanizer: a fixed table from Arabic-script symbols to Latin strings, and
  a two-state transducer over a name that defers the letter AYN by one symbol so
  that it can merge with a following long vowel, vanish before a short-vowel
  mark, or surface as a bare "a".
*/
module Romanizer {

  import opened Wrappers

  // Consonant letters
  const Alf: char := '\U{0627}'
  const Baa: char := '\U{0628}'
  const Jim: char := '\U{062C}'
  const Dal: char := '\U{062F}'
  const Haa: char := '\U{0647}'
  const Waw: char := '\U{0648}'
  const Zay: char := '\U{0632}'
  const Hha: char := '\U{062D}'
  const Tta: char := '\U{0637}'
  const Yaa: char := '\U{064A}'
  const Kaf: char := '\U{0643}'
  const Lam: char := '\U{0644}'
  const Mim: char := '\U{0645}'
  const Nun: char := '\U{0646}'
  const Sin: char := '\U{0633}'
  const Ayn: char := '\U{0639}'
  const Faa: char := '\U{0641}'
  const Sad: char := '\U{0635}'
  const Qaf: char := '\U{0642}'
  const Raa: char := '\U{0631}'
  const Shn: char := '\U{0634}'
  const Taa: char := '\U{062A}'
  const Tha: char := '\U{062B}'
  const Kha: char := '\U{062E}'
  const Thh: char := '\U{0630}'
  const Dha: char := '\U{0636}'
  const Tth: char := '\U{0638}'
  const Gyn: char := '\U{063A}'

  // Short-vowel marks, nunation marks and the no-vowel mark
  const Fatha: char := '\U{064E}'
  const Dhamma: char := '\U{064F}'
  const Kasra: char := '\U{0650}'
  const TanwinFatha: char := '\U{064B}'
  const TanwinDhamma: char := '\U{064C}'
  const TanwinKasra: char := '\U{064D}'
  const Sukoon: char := '\U{0652}'

  // Glottal-stop variants and letter-final forms
  const Hamza: char := '\U{0621}'
  const AlfHamza: char := '\U{0623}'
  const AlfHamzaKasr: char := '\U{0625}'
  const WawHamza: char := '\U{0624}'
  const YaaHamza: char := '\U{0626}'
  const AlfMaqsura: char := '\U{0649}'
  const AlfMadd: char := '\U{0622}'
  const TaaMarbuta: char := '\U{0629}'

  // Elongation, doubling and the secondary diacritics
  const Tatweel: char := '\U{0640}'
  const Shadda: char := '\U{0651}'
  const HamzaAbove: char := '\U{0654}'
  const HamzaBelow: char := '\U{0655}'
  const Madd: char := '\U{0653}'

  // Extended letters
  const Gyf: char := '\U{06AF}'
  const Vaa: char := '\U{06A4}'

  // Arabic-Indic digits
  const Digit0: char := '\U{0660}'
  const Digit1: char := '\U{0661}'
  const Digit2: char := '\U{0662}'
  const Digit3: char := '\U{0663}'
  const Digit4: char := '\U{0664}'
  const Digit5: char := '\U{0665}'
  const Digit6: char := '\U{0666}'
  const Digit7: char := '\U{0667}'
  const Digit8: char := '\U{0668}'
  const Digit9: char := '\U{0669}'

  // Punctuation
  const QuestionMark: char := '\U{061F}'
  const Comma: char := '\U{060C}'
  const Semicolon: char := '\U{061B}'
  const Percent: char := '\U{066A}'

  /** The short-vowel marks. */
  const Vowels: seq<char> := [Fatha, Dhamma, Kasra]

  /** The letters that double as long vowels. */
  const LongVowels: seq<char> := [Alf, Waw, Yaa]

  /** The short-vowel mark that carries the quality of each long vowel. */
  const LongVowelToShort: map<char, char> := map[Alf := Fatha, Waw := Dhamma, Yaa := Kasra]

  /** The table entries for the consonant letters. */
  function ConsonantEntry(c: char): Option<string>
  {
    if c == Alf then Some("a") else if c == Baa then Some("b") else if c == Jim then Some("j")
    else if c == Dal then Some("d") else if c == Haa then Some("h") else if c == Waw then Some("w")
    else if c == Zay then Some("z") else if c == Hha then Some("h") else if c == Tta then Some("t")
    else if c == Yaa then Some("y") else if c == Kaf then Some("k") else if c == Lam then Some("l")
    else if c == Mim then Some("m") else if c == Nun then Some("n") else if c == Sin then Some("s")
    else if c == Ayn then Some("a") else if c == Faa then Some("f") else if c == Sad then Some("s")
    else if c == Qaf then Some("q") else if c == Raa then Some("r") else if c == Shn then Some("sh")
    else if c == Taa then Some("t") else if c == Tha then Some("th") else if c == Kha then Some("kh")
    else if c == Thh then Some("th") else if c == Dha then Some("dh") else if c == Tth then Some("th")
    else if c == Gyn then Some("gh")
    else None
  }

  /** The table entries for vowel marks, nunation, the no-vowel mark and the hamza forms. */
  function DiacriticEntry(c: char): Option<string>
  {
    if c == Fatha then Some("a") else if c == Dhamma then Some("u") else if c == Kasra then Some("i")
    else if c == TanwinFatha then Some("an") else if c == TanwinDhamma then Some("un")
    else if c == TanwinKasra then Some("in")
    else if c == Sukoon then Some("")
    else if c == Hamza then Some("") else if c == AlfHamza then Some("a")
    else if c == AlfHamzaKasr then Some("i") else if c == WawHamza then Some("u")
    else if c == YaaHamza then Some("i") else if c == AlfMaqsura then Some("a")
    else if c == AlfMadd then Some("aa")
    else if c == HamzaAbove then Some("") else if c == HamzaBelow then Some("") else if c == Madd then Some("")
    else None
  }

  /** The table entries for the remaining letters, the digits and the punctuation. */
  function OtherEntry(c: char): Option<string>
  {
    if c == TaaMarbuta then Some("a") else if c == Tatweel then Some("") else if c == Shadda then Some("")
    else if c == Gyf then Some("g") else if c == Vaa then Some("v")
    else if c == Digit0 then Some("0") else if c == Digit1 then Some("1") else if c == Digit2 then Some("2")
    else if c == Digit3 then Some("3") else if c == Digit4 then Some("4") else if c == Digit5 then Some("5")
    else if c == Digit6 then Some("6") else if c == Digit7 then Some("7") else if c == Digit8 then Some("8")
    else if c == Digit9 then Some("9")
    else if c == QuestionMark then Some("?") else if c == Comma then Some(",")
    else if c == Semicolon then Some(";") else if c == Percent then Some("%")
    else None
  }

  /** The entry of `c` in the character table, if it has one. */
  function Entry(c: char): Option<string>
  {
    if ConsonantEntry(c).Some? then ConsonantEntry(c)
    else if DiacriticEntry(c).Some? then DiacriticEntry(c)
    else OtherEntry(c)
  }

  /**
    The character table as a map; a symbol without an entry stands for itself.
    Every symbol it knows lies in the Arabic block U+0600 to U+06FF.
  */
  const LetterMap: map<char, string> :=
    map c: char | '\U{0600}' <= c <= '\U{06FF}' && Entry(c).Some? :: Entry(c).value

  /**
    What every table entry satisfies: the key lies in the Arabic block, and the
    replacement is at most two symbols of printable ASCII, none of them '/'.
  */
  ghost predicate AsciiEntry(c: char, v: string)
  {
    && '\U{0600}' <= c <= '\U{06FF}'
    && |v| <= 2
    && forall k :: 0 <= k < |v| ==> ' ' <= v[k] < '\U{007F}' && v[k] != '/'
  }

  lemma ConsonantEntries(c: char)
    requires ConsonantEntry(c).Some?
    ensures AsciiEntry(c, ConsonantEntry(c).value)
  {
  }

  lemma DiacriticEntries(c: char)
    requires DiacriticEntry(c).Some?
    ensures AsciiEntry(c, DiacriticEntry(c).value)
  {
  }

  lemma OtherEntries(c: char)
    requires OtherEntry(c).Some?
    ensures AsciiEntry(c, OtherEntry(c).value)
  {
  }

  /** Every entry of the table is an ASCII entry. */
  lemma TableEntries(c: char)
    requires c in LetterMap
    ensures AsciiEntry(c, LetterMap[c])
  {
    if ConsonantEntry(c).Some? {
      ConsonantEntries(c);
    } else if DiacriticEntry(c).Some? {
      DiacriticEntries(c);
    } else {
      OtherEntries(c);
    }
  }

  /**
    A replacement table that has entries for ALF and the three short-vowel marks,
    the keys the transducer reads without a fallback.
  */
  type Table = t: map<char, string> | Alf in t && Fatha in t && Dhamma in t && Kasra in t
    witness map[Alf := "a", Fatha := "a", Dhamma := "u", Kasra := "i"]

  /** The table `romanize` uses. */
  const Letters: Table := LetterMap

  /** `letter_map.get(c, c)`: the entry of `c`, or `c` itself. */
  function Lookup(t: Table, c: char): string
  {
    if c in t then t[c] else [c]
  }

  /** The transducer state: whether an AYN is waiting, and the output so far. */
  datatype Machine = Machine(previousAyn: bool, romanized: string)

  const Start: Machine := Machine(false, "")

  /** One pass of the loop body over symbol `c`. */
  function Step(t: Table, m: Machine, c: char): Machine
  {
    if c == Ayn && !m.previousAyn then
      Machine(true, m.romanized)
    else if m.previousAyn then
      var extra :=
        if c in LongVowels then t[LongVowelToShort[c]]
        else if c !in Vowels then t[Alf]
        else "";
      Machine(false, m.romanized + extra + Lookup(t, c))
    else
      Machine(false, m.romanized + Lookup(t, c))
  }

  /** The state after feeding the symbols of `s`, left to right, from `m`. */
  function Feed(t: Table, m: Machine, s: string): Machine
  {
    if s == [] then m else Step(t, Feed(t, m, s[..|s| - 1]), s[|s| - 1])
  }

  /** The end-of-input rule: a waiting AYN becomes the entry of ALF. */
  function Finish(t: Table, m: Machine): string
  {
    if m.previousAyn then m.romanized + t[Alf] else m.romanized
  }

  /** `romanize(text)` as a function: the fold of Step over the text, then Finish. */
  function Romanize(text: string): string
  {
    Finish(Letters, Feed(Letters, Start, text))
  }

  /** The loop of `romanize`, over table `t`. */
  method RomanizeWith(t: Table, text: string) returns (r: string)
    ensures r == Finish(t, Feed(t, Start, text))
  {
    var romanized := "";
    var previousAyn := false;
    for i := 0 to |text|
      invariant Machine(previousAyn, romanized) == Feed(t, Start, text[..i])
    {
      var c := text[i];
      assert text[..i + 1][..i] == text[..i];
      if c == Ayn && !previousAyn {
        previousAyn := true;
        continue;
      } else if previousAyn {
        if c in LongVowels {
          romanized := romanized + t[LongVowelToShort[c]];
        } else if c !in Vowels {
          romanized := romanized + t[Alf];
        }
        previousAyn := false;
      }
      romanized := romanized + Lookup(t, c);
    }
    assert text[..|text|] == text;
    if previousAyn {
      romanized := romanized + t[Alf];
    }
    r := romanized;
  }

  /** `romanize(text)`: the loop run over the fixed table. */
  method RomanizeName(text: string) returns (r: string)
    ensures r == Romanize(text)
  {
    r := RomanizeWith(Letters, text);
  }

  /** The context-free reading: the concatenation of the lookups of every symbol. */
  function LookupAll(t: Table, s: string): string
  {
    if s == [] then "" else LookupAll(t, s[..|s| - 1]) + Lookup(t, s[|s| - 1])
  }

  /** The number of AYNs that end `s`. */
  function TrailingAyns(s: string): nat
  {
    if s == [] || s[|s| - 1] != Ayn then 0 else 1 + TrailingAyns(s[..|s| - 1])
  }

  /** The transducer only ever appends: what it emits does not depend on what it emitted before. */
  lemma {:induction false} FeedAppends(t: Table, m: Machine, s: string)
    ensures Feed(t, m, s).romanized == m.romanized + Feed(t, Machine(m.previousAyn, ""), s).romanized
    ensures Feed(t, m, s).previousAyn == Feed(t, Machine(m.previousAyn, ""), s).previousAyn
  {
    if s != [] {
      FeedAppends(t, m, s[..|s| - 1]);
    }
  }

  /** Feeding two strings in turn is feeding their concatenation. */
  lemma {:induction false} FeedConcat(t: Table, m: Machine, s: string, u: string)
    ensures Feed(t, m, s + u) == Feed(t, Feed(t, m, s), u)
  {
    if u == [] {
      assert s + u == s;
    } else {
      assert (s + u)[..|s + u| - 1] == s + u[..|u| - 1];
      FeedConcat(t, m, s, u[..|u| - 1]);
    }
  }

  /** An AYN is still waiting after `s` exactly when `s` ends in an odd run of AYNs. */
  lemma {:induction false} PendingAfterOddAyns(t: Table, s: string)
    ensures Feed(t, Start, s).previousAyn <==> TrailingAyns(s) % 2 == 1
  {
    if s != [] {
      PendingAfterOddAyns(t, s[..|s| - 1]);
    }
  }

  /** No replacement is longer than two symbols; those emitted for a resolved AYN are at most one. */
  ghost predicate ShortTable(t: Table)
  {
    && (forall c :: c in t ==> |t[c]| <= 2)
    && |t[Alf]| <= 1 && |t[Fatha]| <= 1 && |t[Dhamma]| <= 1 && |t[Kasra]| <= 1
  }

  /** No replacement contains a symbol the table maps, nor the path separator '/'. */
  ghost predicate ClosedTable(t: Table)
  {
    forall c, k :: c in t && 0 <= k < |t[c]| ==> t[c][k] !in t && t[c][k] != '/'
  }

  /** AYN has an entry, and AYN and every vowel the transducer emits for it are audible. */
  ghost predicate VoicedAyn(t: Table)
  {
    Ayn in t && t[Ayn] != "" && t[Alf] != "" && t[Fatha] != "" && t[Dhamma] != "" && t[Kasra] != ""
  }

  /** The entries the transducer reads for AYN, and AYN's own. */
  lemma VowelEntries()
    ensures Letters[Alf] == "a" && Letters[Fatha] == "a" && Letters[Dhamma] == "u" && Letters[Kasra] == "i"
    ensures Ayn in Letters && Letters[Ayn] == "a"
  {
  }

  lemma LettersShort()
    ensures ShortTable(Letters)
  {
    forall c | c in Letters
      ensures |Letters[c]| <= 2
    {
      TableEntries(c);
    }
    VowelEntries();
  }

  lemma LettersClosed()
    ensures ClosedTable(Letters)
  {
    forall c, k | c in Letters && 0 <= k < |Letters[c]|
      ensures Letters[c][k] !in Letters && Letters[c][k] != '/'
    {
      TableEntries(c);
      var x := Letters[c][k];
      if x in Letters {
        TableEntries(x);
      }
    }
  }

  /** The fixed table has all three properties. */
  lemma LettersWellFormed()
    ensures ShortTable(Letters) && ClosedTable(Letters) && VoicedAyn(Letters)
  {
    VowelEntries();
    LettersShort();
    LettersClosed();
  }

  /** Without an AYN, the transducer is a symbol-by-symbol table lookup. */
  lemma {:induction false} NoAynIsLookupWith(t: Table, s: string)
    requires Ayn !in s
    ensures Feed(t, Start, s) == Machine(false, LookupAll(t, s))
  {
    if s != [] {
      assert Ayn !in s[..|s| - 1] by {
        assert forall k :: 0 <= k < |s| - 1 ==> s[..|s| - 1][k] == s[k];
      }
      NoAynIsLookupWith(t, s[..|s| - 1]);
    }
  }

  /** Without an AYN, romanizing is a symbol-by-symbol table lookup; the empty name gives "". */
  lemma NoAynIsLookup(s: string)
    requires Ayn !in s
    ensures Romanize(s) == LookupAll(Letters, s)
  {
    NoAynIsLookupWith(Letters, s);
  }

  lemma {:induction false} UnmappedLookupAll(t: Table, s: string)
    requires forall i :: 0 <= i < |s| ==> s[i] !in t
    ensures LookupAll(t, s) == s
  {
    if s != [] {
      UnmappedLookupAll(t, s[..|s| - 1]);
      assert s[..|s| - 1] + [s[|s| - 1]] == s;
    }
  }

  /** A name with no symbol from the table (Latin text, say) comes back unchanged. */
  lemma UnmappedUnchanged(s: string)
    requires forall i :: 0 <= i < |s| ==> s[i] !in Letters
    ensures Romanize(s) == s
  {
    LettersWellFormed();
    NoAynIsLookupWith(Letters, s);
    UnmappedLookupAll(Letters, s);
  }

  /** A one-symbol name: a lone AYN is "a"; any other symbol is its table entry or itself. */
  lemma SingleSymbol(c: char)
    ensures Romanize([c]) == if c == Ayn then "a" else Lookup(Letters, c)
  {
    assert [c][..0] == [];
    assert Feed(Letters, Start, [c]) == Step(Letters, Start, c);
    VowelEntries();
  }

  /**
    AYN followed by one symbol `c`: before a long vowel it becomes that vowel's short
    mark, before a short-vowel mark it vanishes, and before anything else (a second
    AYN included) it is a bare "a"; `c` itself is then looked up as usual.
  */
  lemma AynThen(c: char)
    ensures Romanize([Ayn, c]) ==
      (if c in LongVowels then Letters[LongVowelToShort[c]]
       else if c in Vowels then ""
       else "a") + Lookup(Letters, c)
  {
    assert [Ayn, c][..1] == [Ayn];
    assert [Ayn][..0] == [];
    assert Feed(Letters, Start, [Ayn]) == Machine(true, "");
    assert Feed(Letters, Start, [Ayn, c]) == Step(Letters, Machine(true, ""), c);
    VowelEntries();
  }

  /** AYN before FATHA gives "a", not "aa". */
  lemma AynBeforeShortVowel()
    ensures Romanize([Ayn, Fatha]) == "a"
  {
    AynThen(Fatha);
  }

  /** AYN before a long vowel gives that vowel's short mark, then the long vowel. */
  lemma AynBeforeLongVowels()
    ensures Romanize([Ayn, Waw]) == "uw"
    ensures Romanize([Ayn, Alf]) == "aa"
    ensures Romanize([Ayn, Yaa]) == "iy"
  {
    AynThen(Waw);
    AynThen(Alf);
    AynThen(Yaa);
  }

  /** AYN before a consonant, or before a second AYN, is a bare "a". */
  lemma AynBeforeConsonant()
    ensures Romanize([Ayn, Ayn]) == "aa"
    ensures Romanize([Ayn, Baa]) == "ab"
  {
    AynThen(Ayn);
    AynThen(Baa);
  }

  /** When nothing is waiting after `s`, the names `s` and `u` romanize independently. */
  lemma RomanizeConcat(s: string, u: string)
    requires !Feed(Letters, Start, s).previousAyn
    ensures Romanize(s + u) == Romanize(s) + Romanize(u)
  {
    FeedConcat(Letters, Start, s, u);
    FeedAppends(Letters, Feed(Letters, Start, s), u);
  }

  lemma {:induction false} LengthBoundWith(t: Table, s: string)
    requires ShortTable(t)
    ensures |Feed(t, Start, s).romanized| + (if Feed(t, Start, s).previousAyn then 1 else 0) <= 2 * |s|
  {
    if s != [] {
      LengthBoundWith(t, s[..|s| - 1]);
    }
  }

  /** Each symbol of a name contributes at most two symbols to its romanization. */
  lemma LengthBound(s: string)
    ensures |Romanize(s)| <= 2 * |s|
  {
    LettersWellFormed();
    LengthBoundWith(Letters, s);
  }

  /** Every symbol of `w` is outside table `t`, and is '/' only if `s` holds a '/'. */
  ghost predicate CleanOutput(t: Table, w: string, s: string)
  {
    forall k :: 0 <= k < |w| ==> w[k] !in t && (w[k] == '/' ==> '/' in s)
  }

  lemma {:induction false} CleanOutputWith(t: Table, s: string)
    requires ClosedTable(t)
    ensures CleanOutput(t, Feed(t, Start, s).romanized, s)
    ensures CleanOutput(t, Finish(t, Feed(t, Start, s)), s)
  {
    if s != [] {
      var p, c := s[..|s| - 1], s[|s| - 1];
      CleanOutputWith(t, p);
      var m := Feed(t, Start, p);
      assert forall k :: 0 <= k < |p| ==> p[k] == s[k];
      assert CleanOutput(t, m.romanized, s);
      assert CleanOutput(t, Lookup(t, c), s);
      var extra :=
        if c in LongVowels then t[LongVowelToShort[c]]
        else if c !in Vowels then t[Alf]
        else "";
      assert CleanOutput(t, extra, s);
      assert CleanOutput(t, m.romanized + extra + Lookup(t, c), s);
    }
    assert CleanOutput(t, t[Alf], s);
  }

  /**
    Every symbol of a romanized name is outside the table, so it is never a symbol
    the romanizer would rewrite; and the romanizer never introduces a '/'.
  */
  lemma OutputSymbols(s: string)
    ensures forall k :: 0 <= k < |Romanize(s)| ==> Romanize(s)[k] !in Letters
    ensures '/' !in s ==> '/' !in Romanize(s)
  {
    LettersWellFormed();
    CleanOutputWith(Letters, s);
  }

  /** Romanizing a romanized name changes nothing. */
  lemma Idempotent(s: string)
    ensures Romanize(Romanize(s)) == Romanize(s)
  {
    OutputSymbols(s);
    UnmappedUnchanged(Romanize(s));
  }

  lemma {:induction false} AynSurfacesWith(t: Table, s: string)
    requires VoicedAyn(t)
    requires Ayn in s
    ensures Finish(t, Feed(t, Start, s)) != ""
  {
    var p, c := s[..|s| - 1], s[|s| - 1];
    assert s == p + [c];
    var m := Feed(t, Start, p);
    assert Feed(t, Start, s) == Step(t, m, c);
    if Ayn in p {
      AynSurfacesWith(t, p);
      if m.romanized == "" {
        assert m.previousAyn;
        if c in LongVowels {
          assert LongVowelToShort[c] in {Fatha, Dhamma, Kasra};
        }
      }
    } else {
      NoAynIsLookupWith(t, p);
    }
  }

  lemma {:induction false} SilentLookupAll(t: Table, s: string)
    ensures LookupAll(t, s) == "" <==> forall i :: 0 <= i < |s| ==> s[i] in t && t[s[i]] == ""
  {
    if s != [] {
      SilentLookupAll(t, s[..|s| - 1]);
      assert forall i :: 0 <= i < |s| - 1 ==> s[..|s| - 1][i] == s[i];
    }
  }

  /**
    A name romanizes to the empty string exactly when every one of its symbols has an
    empty table entry (HAMZA, SUKOON, TATWEEL, SHADDA and the secondary diacritics);
    in particular the empty name does.
  */
  lemma EmptyExactlyWhenSilent(s: string)
    ensures Romanize(s) == "" <==> forall i :: 0 <= i < |s| ==> s[i] in Letters && Letters[s[i]] == ""
  {
    LettersWellFormed();
    SilentLookupAll(Letters, s);
    if Ayn in s {
      AynSurfacesWith(Letters, s);
      var i :| 0 <= i < |s| && s[i] == Ayn;
    } else {
      NoAynIsLookupWith(Letters, s);
    }
  }

  /** A name made of HAMZA, SUKOON and TATWEEL romanizes to the empty string. */
  lemma SilentExample()
    ensures Romanize([Hamza, Sukoon, Tatweel]) == ""
  {
    EmptyExactlyWhenSilent([Hamza, Sukoon, Tatweel]);
  }
}
