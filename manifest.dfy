/** The core of `tools/update_manifest.py`: turning CSV file names into display
    names, and the list of flashcard sets written to `manifest.json`. */
module Manifest {
  import opened Wrappers
  import opened PyStr
  import opened StrOrder

  /** The extension of a flashcard set file. */
  const Ext: string := ".csv"

  /** `pat` occurs somewhere in `s`. */
  predicate HasInfix(s: string, pat: string)
    decreases |s|
  {
    |s| >= |pat| && (s[..|pat|] == pat || (s != [] && HasInfix(s[1..], pat)))
  }

  /** `s.replace(pat, '')`: every occurrence of `pat`, found left to right without
      overlapping, removed. */
  function RemoveAll(s: string, pat: string): (r: string)
    requires pat != []
    ensures |r| <= |s|
    decreases |s|
  {
    if |s| < |pat| then s
    else if s[..|pat|] == pat then RemoveAll(s[|pat|..], pat)
    else [s[0]] + RemoveAll(s[1..], pat)
  }

  /** Removing a pattern that does not occur changes nothing. */
  lemma {:induction false} RemoveAllAbsent(s: string, pat: string)
    requires pat != [] && !HasInfix(s, pat)
    ensures RemoveAll(s, pat) == s
    decreases |s|
  {
    if |s| >= |pat| {
      RemoveAllAbsent(s[1..], pat);
      assert [s[0]] + s[1..] == s;
    }
  }

  /** The extension is removed from a name that does not mention it elsewhere. */
  lemma {:induction false} RemoveExtension(stem: string)
    requires !HasInfix(stem, Ext)
    ensures RemoveAll(stem + Ext, Ext) == stem
    decreases |stem|
  {
    var s := stem + Ext;
    if stem == [] {
      assert s[..4] == Ext && s[4..] == [];
    } else {
      assert s[..4] != Ext by {
        if |stem| >= 4 {
          assert s[..4] == stem[..4];
        } else {
          assert s[|stem|] == '.';
        }
      }
      assert s[1..] == stem[1..] + Ext;
      RemoveExtension(stem[1..]);
      assert [stem[0]] + stem[1..] == stem;
    }
  }

  /** `[w.capitalize() for w in words]` */
  function CapitalizeAll(words: seq<string>): (r: seq<string>)
    ensures |r| == |words|
    ensures forall k :: 0 <= k < |words| ==> r[k] == Capitalize(words[k])
  {
    seq(|words|, k requires 0 <= k < |words| => Capitalize(words[k]))
  }

  /** The file name with the extension removed and underscores turned into spaces. */
  function Spaced(filename: string): (r: string)
    ensures '_' !in r
  {
    ReplaceChar(RemoveAll(filename, Ext), '_', ' ')
  }

  /** `format_name`: the words of the file name, each capitalized, joined by one
      space. A display name is single-spaced and never contains an underscore. */
  function FormatName(filename: string): (r: string)
    ensures SingleSpaced(r)
    ensures '_' !in r
  {
    var words := SplitWs(Spaced(filename));
    SplitWsExcludes(Spaced(filename), '_');
    TitleJoin(words);
    JoinWith(CapitalizeAll(words), ' ')
  }

  /** Capitalizing whitespace-free words without underscores and joining them
      with single spaces gives single-spaced text without underscores. */
  lemma TitleJoin(words: seq<string>)
    requires forall k :: 0 <= k < |words| ==> words[k] != [] && NoSpace(words[k]) && '_' !in words[k]
    ensures SingleSpaced(JoinWith(CapitalizeAll(words), ' '))
    ensures '_' !in JoinWith(CapitalizeAll(words), ' ')
  {
    var caps := CapitalizeAll(words);
    forall k | 0 <= k < |caps| ensures TitleWord(caps[k]) && '_' !in caps[k] {
      CapitalizeTitle(words[k]);
      assert '_' !in words[k];
    }
    JoinSingleSpaced(caps);
    JoinExcludes(caps, ' ', '_');
  }

  /** A display-name word: non-empty, not starting with a lower-case letter and
      with no upper-case letter after the first character. */
  predicate TitleWord(w: string) {
    && w != []
    && NoSpace(w)
    && !IsLowerAscii(w[0])
    && forall i :: 0 < i < |w| ==> !IsUpperAscii(w[i])
  }

  /** Every whitespace character is a plain space between two non-whitespace
      characters: no leading, trailing or repeated spaces. */
  predicate SingleSpaced(s: string) {
    forall i :: 0 <= i < |s| && IsSpace(s[i]) ==>
      s[i] == ' ' && 0 < i < |s| - 1 && !IsSpace(s[i - 1]) && !IsSpace(s[i + 1])
  }

  lemma CapitalizeTitle(w: string)
    requires w != [] && NoSpace(w)
    ensures TitleWord(Capitalize(w))
  {
    var r := Capitalize(w);
    forall i | 0 <= i < |r| ensures !IsSpace(r[i]) {
      assert !IsSpace(w[i]);
    }
  }

  /** Joining whitespace-free words with single spaces gives single-spaced text. */
  lemma {:induction false} JoinSingleSpaced(words: seq<string>)
    requires forall k :: 0 <= k < |words| ==> words[k] != [] && NoSpace(words[k])
    ensures SingleSpaced(JoinWith(words, ' '))
    decreases |words|
  {
    if |words| == 1 {
      assert JoinWith(words, ' ') == words[0];
    } else if |words| > 1 {
      var w := words[0];
      var j := JoinWith(words[1..], ' ');
      JoinSingleSpaced(words[1..]);
      JoinStartsWithWord(words[1..]);
      var s := JoinWith(words, ' ');
      assert s == w + [' '] + j;
      forall i | 0 <= i < |s| && IsSpace(s[i])
        ensures s[i] == ' ' && 0 < i < |s| - 1 && !IsSpace(s[i - 1]) && !IsSpace(s[i + 1])
      {
        if i > |w| {
          assert s[i] == j[i - |w| - 1];
          if i - 1 > |w| {
            assert s[i - 1] == j[i - 1 - |w| - 1];
          }
          assert s[i + 1] == j[i + 1 - |w| - 1];
        }
      }
    }
  }

  /** No character of `s` is `c`, so no word of `s.split()` contains it. */
  lemma {:induction false} SplitWsExcludes(s: string, c: char)
    requires c !in s
    ensures forall k :: 0 <= k < |SplitWs(s)| ==> c !in SplitWs(s)[k]
    decreases |s|
  {
    var t := TrimLeft(s);
    TrimLeftSlice(s);
    if t != [] {
      var n := WordLength(t);
      assert c !in t;
      assert c !in t[..n];
      assert c !in t[n..];
      SplitWsExcludes(t[n..], c);
    }
  }

  /** The words of a display name are the capitalized words of the file name,
      with the extension dropped and underscores read as spaces. */
  lemma FormatNameWords(filename: string)
    ensures SplitWs(FormatName(filename)) == CapitalizeAll(SplitWs(Spaced(filename)))
    ensures forall k :: 0 <= k < |SplitWs(FormatName(filename))| ==> TitleWord(SplitWs(FormatName(filename))[k])
  {
    var words := SplitWs(Spaced(filename));
    var caps := CapitalizeAll(words);
    forall k | 0 <= k < |caps| ensures TitleWord(caps[k]) {
      CapitalizeTitle(words[k]);
    }
    SplitWsJoin(caps);
  }

  lemma {:induction false} JoinExcludes(parts: seq<string>, sep: char, c: char)
    requires c != sep
    requires forall k :: 0 <= k < |parts| ==> c !in parts[k]
    ensures c !in JoinWith(parts, sep)
    decreases |parts|
  {
    if |parts| > 1 {
      JoinExcludes(parts[1..], sep, c);
    }
  }

  /** Capitalizing a word twice is capitalizing it once. */
  lemma CapitalizeIdempotent(w: string)
    ensures Capitalize(Capitalize(w)) == Capitalize(w)
  {
  }

  /** Formatting a display name again leaves it unchanged, unless it happens to
      contain the extension. */
  lemma FormatNameIdempotent(filename: string)
    requires !HasInfix(FormatName(filename), Ext)
    ensures FormatName(FormatName(filename)) == FormatName(filename)
  {
    var name := FormatName(filename);
    var words := SplitWs(Spaced(filename));
    var caps := CapitalizeAll(words);
    RemoveAllAbsent(name, Ext);
    assert ReplaceChar(name, '_', ' ') == name;
    FormatNameWords(filename);
    assert Spaced(name) == name;
    forall k | 0 <= k < |caps| ensures Capitalize(caps[k]) == caps[k] {
      CapitalizeIdempotent(words[k]);
    }
    assert CapitalizeAll(caps) == caps;
  }

  /** The first example of the `format_name` documentation. */
  lemma FormatNameFirstExample()
    ensures FormatName("vocabulary_level_1.csv") == "Vocabulary Level 1"
  {
    var words := ["vocabulary", "level", "1"];
    var caps := ["Vocabulary", "Level", "1"];
    FirstExampleStem();
    FirstExampleWords();
    FirstExampleCaps();
    FirstExampleJoin();
    assert "vocabulary_level_1.csv" == "vocabulary_level_1" + Ext;
    FormatNameSnakeCase(words);
  }

  // The example lemmas below compute on string literals one step at a time:
  // one literal join, word list or capitalization per lemma. The verifier
  // unfolds functions applied to literals eagerly, so keeping each computation
  // in its own small lemma keeps every proof cheap.

  lemma FirstExampleStem()
    ensures JoinWith(["vocabulary", "level", "1"], '_') == "vocabulary_level_1"
  {
    JoinThree("vocabulary", "level", "1", '_');
    assert "vocabulary" + "_" + "level" + "_" + "1" == "vocabulary_level_1";
  }

  lemma FirstExampleWords()
    ensures forall k :: 0 <= k < |["vocabulary", "level", "1"]| ==>
      var w := ["vocabulary", "level", "1"][k]; w != [] && NoSpace(w) && '_' !in w && '.' !in w
  {
  }

  lemma FirstExampleCaps()
    ensures CapitalizeAll(["vocabulary", "level", "1"]) == ["Vocabulary", "Level", "1"]
  {
    CapitalizedVocabulary();
    CapitalizedLevel();
    assert Capitalize("1") == "1";
  }

  lemma CapitalizedVocabulary()
    ensures Capitalize("vocabulary") == "Vocabulary"
  {
    CapitalizeWord("vocabulary");
  }

  lemma CapitalizedLevel()
    ensures Capitalize("level") == "Level"
  {
    CapitalizeWord("level");
  }

  lemma FirstExampleJoin()
    ensures JoinWith(["Vocabulary", "Level", "1"], ' ') == "Vocabulary Level 1"
  {
    JoinThree("Vocabulary", "Level", "1", ' ');
    assert "Vocabulary" + " " + "Level" + " " + "1" == "Vocabulary Level 1";
  }

  /** The second example of the `format_name` documentation. */
  lemma FormatNameSecondExample()
    ensures FormatName("spanish_speaking_countries_and_capitals.csv")
         == "Spanish Speaking Countries And Capitals"
  {
    var words := ["spanish", "speaking", "countries", "and", "capitals"];
    var caps := ["Spanish", "Speaking", "Countries", "And", "Capitals"];
    SecondExampleStem();
    SecondExampleWords();
    SecondExampleCaps();
    SecondExampleJoin();
    assert "spanish_speaking_countries_and_capitals.csv" == "spanish_speaking_countries_and_capitals" + Ext;
    FormatNameSnakeCase(words);
  }

  lemma SecondExampleStem()
    ensures JoinWith(["spanish", "speaking", "countries", "and", "capitals"], '_')
         == "spanish_speaking_countries_and_capitals"
  {
    JoinFive("spanish", "speaking", "countries", "and", "capitals", '_');
    assert "spanish" + "_" + "speaking" + "_" + "countries" + "_" + "and" + "_" + "capitals"
        == "spanish_speaking_countries_and_capitals";
  }

  lemma SecondExampleWords()
    ensures forall k :: 0 <= k < |["spanish", "speaking", "countries", "and", "capitals"]| ==>
      var w := ["spanish", "speaking", "countries", "and", "capitals"][k]; w != [] && NoSpace(w) && '_' !in w && '.' !in w
  {
  }

  lemma SecondExampleCaps()
    ensures CapitalizeAll(["spanish", "speaking", "countries", "and", "capitals"])
         == ["Spanish", "Speaking", "Countries", "And", "Capitals"]
  {
    CapitalizedSpanish();
    CapitalizedSpeaking();
    CapitalizedCountries();
    CapitalizedAnd();
    CapitalizedCapitals();
  }

  lemma CapitalizedSpanish()
    ensures Capitalize("spanish") == "Spanish"
  {
    CapitalizeWord("spanish");
  }

  lemma CapitalizedSpeaking()
    ensures Capitalize("speaking") == "Speaking"
  {
    CapitalizeWord("speaking");
  }

  lemma CapitalizedCountries()
    ensures Capitalize("countries") == "Countries"
  {
    CapitalizeWord("countries");
  }

  lemma CapitalizedAnd()
    ensures Capitalize("and") == "And"
  {
    CapitalizeWord("and");
  }

  lemma CapitalizedCapitals()
    ensures Capitalize("capitals") == "Capitals"
  {
    CapitalizeWord("capitals");
  }

  lemma SecondExampleJoin()
    ensures JoinWith(["Spanish", "Speaking", "Countries", "And", "Capitals"], ' ')
         == "Spanish Speaking Countries And Capitals"
  {
    JoinFive("Spanish", "Speaking", "Countries", "And", "Capitals", ' ');
    assert "Spanish" + " " + "Speaking" + " " + "Countries" + " " + "And" + " " + "Capitals"
        == "Spanish Speaking Countries And Capitals";
  }

  /** Capitalizing a word that is all lower case upper-cases its first letter only. */
  lemma CapitalizeWord(w: string)
    requires w != [] && forall i :: 0 <= i < |w| ==> !IsUpperAscii(w[i])
    ensures Capitalize(w) == [Upper(w[0])] + w[1..]
  {
    assert LowerAll(w[1..]) == w[1..];
  }

  lemma JoinThree(a: string, b: string, c: string, sep: char)
    ensures JoinWith([a, b, c], sep) == a + [sep] + b + [sep] + c
  {
    assert [a, b, c][1..] == [b, c];
    assert [b, c][1..] == [c];
    assert JoinWith([c], sep) == c;
    var t := JoinWith([b, c], sep);
    assert t == b + [sep] + JoinWith([c], sep);
    assert a + [sep] + t == a + [sep] + b + [sep] + c;
  }

  lemma JoinFive(a: string, b: string, c: string, d: string, e: string, sep: char)
    ensures JoinWith([a, b, c, d, e], sep) == a + [sep] + b + [sep] + c + [sep] + d + [sep] + e
  {
    assert [a, b, c, d, e][1..] == [b, c, d, e];
    assert [b, c, d, e][1..] == [c, d, e];
    JoinThree(c, d, e, sep);
    var t := JoinWith([c, d, e], sep);
    assert JoinWith([b, c, d, e], sep) == b + [sep] + t;
    assert a + [sep] + (b + [sep] + t) == a + [sep] + b + [sep] + c + [sep] + d + [sep] + e;
  }


  /** A text without a dot does not contain the extension. */
  lemma {:induction false} NoDotNoInfix(s: string)
    requires '.' !in s
    ensures !HasInfix(s, Ext)
    decreases |s|
  {
    if |s| >= |Ext| {
      assert s[0] != Ext[0];
      NoDotNoInfix(s[1..]);
    }
  }

  /** A snake-case file name becomes its words, capitalized and joined by spaces. */
  lemma FormatNameSnakeCase(words: seq<string>)
    requires forall k :: 0 <= k < |words| ==>
               words[k] != [] && NoSpace(words[k]) && '_' !in words[k] && '.' !in words[k]
    ensures FormatName(JoinWith(words, '_') + Ext) == JoinWith(CapitalizeAll(words), ' ')
  {
    var stem := JoinWith(words, '_');
    JoinExcludes(words, '_', '.');
    NoDotNoInfix(stem);
    RemoveExtension(stem);
    JoinReplace(words, '_', ' ');
    SplitWsJoin(words);
  }

  /** Replacing the separator of a join of separator-free parts rejoins them with
      the replacement. */
  lemma {:induction false} JoinReplace(parts: seq<string>, a: char, b: char)
    requires forall k :: 0 <= k < |parts| ==> a !in parts[k]
    ensures ReplaceChar(JoinWith(parts, a), a, b) == JoinWith(parts, b)
    decreases |parts|
  {
    if |parts| == 1 {
      ReplaceAbsent(parts[0], a, b);
    } else if |parts| > 1 {
      JoinReplace(parts[1..], a, b);
      ReplaceAbsent(parts[0], a, b);
      ReplaceConcat(parts[0] + [a], JoinWith(parts[1..], a), a, b);
      ReplaceConcat(parts[0], [a], a, b);
    }
  }

  lemma ReplaceAbsent(s: string, a: char, b: char)
    requires a !in s
    ensures ReplaceChar(s, a, b) == s
  {
  }

  lemma ReplaceConcat(s: string, t: string, a: char, b: char)
    ensures ReplaceChar(s + t, a, b) == ReplaceChar(s, a, b) + ReplaceChar(t, a, b)
  {
  }

  /** One entry of `manifest.json`. */
  datatype Entry = Entry(name: string, file: string)

  /** A name the pattern `*.csv` matches. */
  predicate IsCsvName(f: string) {
    |f| >= |Ext| && f[|f| - |Ext|..] == Ext
  }

  /** `*.csv` matches exactly the names made of a stem (possibly empty) followed
      by `.csv`. */
  lemma CsvNames(f: string, stem: string)
    ensures IsCsvName(stem + Ext)
    ensures IsCsvName(f) ==> f == f[..|f| - |Ext|] + Ext
  {
    assert (stem + Ext)[|stem|..] == Ext;
  }

  /** The file names listed by a manifest, in order. */
  function Files(manifest: seq<Entry>): (r: seq<string>)
    ensures |r| == |manifest|
    ensures forall k :: 0 <= k < |manifest| ==> r[k] == manifest[k].file
  {
    seq(|manifest|, k requires 0 <= k < |manifest| => manifest[k].file)
  }

  /** `entries` are the manifest entries of `files`, in order. */
  predicate Describes(entries: seq<Entry>, files: seq<string>) {
    |entries| == |files| && forall k :: 0 <= k < |files| ==> entries[k] == Entry(FormatName(files[k]), files[k])
  }

  lemma DescribesExtend(entries: seq<Entry>, files: seq<string>, f: string)
    requires Describes(entries, files)
    ensures Describes(entries + [Entry(FormatName(f), f)], files + [f])
  {
    var e := entries + [Entry(FormatName(f), f)];
    var fs := files + [f];
    forall k | 0 <= k < |fs| ensures e[k] == Entry(FormatName(fs[k]), fs[k]) {
      if k < |files| {
        assert e[k] == entries[k] && fs[k] == files[k];
      }
    }
  }

  /** `update_manifest`: `dataDir` is the set of file names in the data directory,
      or `None` when it does not exist. The result is the manifest written to
      `manifest.json`, or `None` when nothing is written. */
  method UpdateManifest(dataDir: Option<set<string>>) returns (manifest: Option<seq<Entry>>)
    ensures dataDir.None? ==> manifest.None?
    ensures dataDir.Some? ==> (manifest.None? <==> forall f :: f in dataDir.value ==> !IsCsvName(f))
    ensures manifest.Some? ==> dataDir.Some? && manifest.value != []
    ensures manifest.Some? ==> StrictlySorted(Files(manifest.value))
    ensures manifest.Some? ==> forall f :: f in Files(manifest.value) <==> f in dataDir.value && IsCsvName(f)
    ensures manifest.Some? ==> forall k :: 0 <= k < |manifest.value| ==>
              manifest.value[k].name == FormatName(manifest.value[k].file)
  {
    if dataDir.None? {
      return None;
    }
    var csvNames := set f | f in dataDir.value && IsCsvName(f);
    var csvFiles := SortStrings(csvNames);
    if csvFiles == [] {
      assert csvNames == {};
      forall f | f in dataDir.value ensures !IsCsvName(f) {
        assert f !in csvNames;
      }
      return None;
    }
    assert csvFiles[0] in csvNames;
    var entries: seq<Entry> := [];
    for i := 0 to |csvFiles|
      invariant Describes(entries, csvFiles[..i])
    {
      DescribesExtend(entries, csvFiles[..i], csvFiles[i]);
      assert csvFiles[..i] + [csvFiles[i]] == csvFiles[..i + 1];
      entries := entries + [Entry(FormatName(csvFiles[i]), csvFiles[i])];
    }
    assert csvFiles[..|csvFiles|] == csvFiles;
    assert Files(entries) == csvFiles;
    manifest := Some(entries);
  }
}
