/**
 * Start-up discovery of engine libraries and keyword files, from the file
 * names found under the data directory. The directory walk itself is not
 * modelled: each file arrives as its path, its stem and, for keyword files,
 * the name of its grandparent directory.
 */
module Resources {
  import opened Wrappers
  import opened Dicts
  import opened Porcupine

  /** Position of the last `c` in `s`, or -1 when there is none. */
  function LastIndexOf(s: string, c: char): (r: int)
    ensures -1 <= r < |s|
    ensures r == -1 <==> c !in s
    ensures r >= 0 ==> s[r] == c && forall j :: r < j < |s| ==> s[j] != c
  {
    if s == [] then -1
    else if s[|s| - 1] == c then |s| - 1
    else
      assert forall j :: 0 <= j < |s| - 1 ==> s[..|s| - 1][j] == s[j];
      LastIndexOf(s[..|s| - 1], c)
  }

  /** `s.split("_")[-1]`: what follows the last underscore, or all of `s`. */
  function LastField(s: string): (field: string)
    ensures '_' !in field
    ensures |field| <= |s| && field == s[|s| - |field|..]
    ensures '_' !in s ==> field == s
  {
    s[LastIndexOf(s, '_') + 1..]
  }

  /** `s.rsplit("_", maxsplit=1)[0]`: what precedes the last underscore, or all of `s`. */
  function InitField(s: string): (init: string)
    ensures |init| <= |s| && init == s[..|init|]
    ensures '_' !in s ==> init == s
    ensures '_' in s ==> |init| < |s| && s[|init|] == '_'
  {
    var i := LastIndexOf(s, '_');
    if i < 0 then s else s[..i]
  }

  /**
   * A stem with an underscore is its two fields joined by one; a stem
   * without is both of its fields.
   */
  lemma SplitRoundTrip(s: string)
    ensures '_' in s ==> InitField(s) + "_" + LastField(s) == s
    ensures '_' !in s ==> InitField(s) == s && LastField(s) == s
  {
    var i := LastIndexOf(s, '_');
    if i >= 0 {
      assert s == s[..i] + [s[i]] + s[i + 1..];
    }
  }

  /** An engine library file `lib/common/<stem>.pv`. */
  datatype LibraryFile = LibraryFile(path: string, stem: string)

  /** A keyword file `resources/<language>/<dir>/<stem>.ppn`. */
  datatype KeywordFile = KeywordFile(path: string, stem: string, grandparent: string)

  /** A library's language is the last field of its stem. */
  function LibraryEntries(files: seq<LibraryFile>): (entries: seq<(string, string)>)
    ensures |entries| == |files|
    ensures forall i :: 0 <= i < |files| ==> entries[i] == (LastField(files[i].stem), files[i].path)
  {
    seq(|files|, i requires 0 <= i < |files| => (LastField(files[i].stem), files[i].path))
  }

  /** `pv_lib_paths`: language -> library path. */
  function LibraryTable(files: seq<LibraryFile>): Dict<string>
  {
    Build(LibraryEntries(files))
  }

  /** The keyword file is built for `system`. */
  predicate ForSystem(f: KeywordFile, system: string)
  {
    LastField(f.stem) == system
  }

  /** The keyword a file describes: named by its stem less the system suffix. */
  function KeywordOf(f: KeywordFile): Keyword
  {
    Keyword(f.grandparent, InitField(f.stem), f.path)
  }

  /** The elements of `s` that `keep` accepts, in order: a loop with `continue` on the others. */
  function Filter<T>(s: seq<T>, keep: T -> bool): (r: seq<T>)
    ensures |r| <= |s|
  {
    if s == [] then []
    else
      var init, x := s[..|s| - 1], s[|s| - 1];
      Filter(init, keep) + (if keep(x) then [x] else [])
  }

  /**
   * The filter keeps exactly the accepted elements, in order and each once:
   * element `j` of the result is element `picked[j]` of `s`, the picked
   * positions increase, and every accepted position is picked.
   */
  lemma {:induction false} FilterSelection<T>(s: seq<T>, keep: T -> bool) returns (picked: seq<nat>)
    ensures |picked| == |Filter(s, keep)|
    ensures forall j :: 0 <= j < |picked| ==>
              picked[j] < |s| && keep(s[picked[j]]) && Filter(s, keep)[j] == s[picked[j]]
    ensures forall j, k :: 0 <= j < k < |picked| ==> picked[j] < picked[k]
    ensures forall i :: 0 <= i < |s| && keep(s[i]) ==> i in picked
  {
    if s == [] {
      picked := [];
    } else {
      var n := |s| - 1;
      var init := s[..n];
      picked := FilterSelection(init, keep);
      assert forall i :: 0 <= i < n ==> init[i] == s[i];
      var prev := Filter(init, keep);
      var r := Filter(s, keep);
      assert forall j :: 0 <= j < |prev| ==> r[j] == prev[j];
      if keep(s[n]) {
        assert r[|prev|] == s[n];
        picked := picked + [n];
      }
    }
  }

  /** The keyword files built for `system`, in walk order. */
  function Kept(files: seq<KeywordFile>, system: string): seq<KeywordFile>
  {
    Filter(files, f => ForSystem(f, system))
  }

  /** The assignment `keywords[name] = keyword` a kept file makes. */
  function Entry(f: KeywordFile): (string, Keyword)
  {
    (KeywordOf(f).name, KeywordOf(f))
  }

  /** The (name, keyword) assignments the keyword loop makes: one per kept file, in order. */
  function KeywordEntries(files: seq<KeywordFile>, system: string): (entries: seq<(string, Keyword)>)
    ensures |entries| <= |files|
  {
    if files == [] then []
    else
      var init, f := files[..|files| - 1], files[|files| - 1];
      KeywordEntries(init, system) + (if ForSystem(f, system) then [Entry(f)] else [])
  }

  /** Entry `k` of the keyword loop is the assignment of kept file `k`. */
  lemma {:induction false} KeywordEntriesKept(files: seq<KeywordFile>, system: string)
    ensures |KeywordEntries(files, system)| == |Kept(files, system)|
    ensures forall k :: 0 <= k < |KeywordEntries(files, system)| ==>
              KeywordEntries(files, system)[k] == Entry(Kept(files, system)[k])
  {
    if files != [] {
      var init, f := files[..|files| - 1], files[|files| - 1];
      KeywordEntriesKept(init, system);
      var prior, entries := KeywordEntries(init, system), KeywordEntries(files, system);
      var before, kept := Kept(init, system), Kept(files, system);
      assert kept == before + (if ForSystem(f, system) then [f] else []);
      assert forall k :: 0 <= k < |prior| ==> entries[k] == prior[k] && kept[k] == before[k];
    }
  }

  /** `keywords`: keyword name -> keyword. */
  function KeywordTable(files: seq<KeywordFile>, system: string): Dict<Keyword>
  {
    Build(KeywordEntries(files, system))
  }

  /** The library loop of `main`. */
  method LoadLibraries(files: seq<LibraryFile>) returns (pvLibPaths: Dict<string>)
    ensures pvLibPaths == LibraryTable(files)
  {
    pvLibPaths := [];
    var i := 0;
    while i < |files|
      invariant 0 <= i <= |files|
      invariant pvLibPaths == Build(LibraryEntries(files[..i]))
    {
      var libLang := LastField(files[i].stem);
      assert LibraryEntries(files[..i + 1])[..i] == LibraryEntries(files[..i]);
      pvLibPaths := Put(pvLibPaths, libLang, files[i].path);
      i := i + 1;
    }
    assert files[..i] == files;
  }

  /** The keyword loop of `main`. */
  method LoadKeywords(files: seq<KeywordFile>, system: string) returns (keywords: Dict<Keyword>)
    ensures keywords == KeywordTable(files, system)
  {
    keywords := [];
    var i := 0;
    while i < |files|
      invariant 0 <= i <= |files|
      invariant keywords == Build(KeywordEntries(files[..i], system))
    {
      ghost var prior := KeywordEntries(files[..i], system);
      ghost var entries := KeywordEntries(files[..i + 1], system);
      assert files[..i + 1][..i] == files[..i];
      assert files[..i + 1][i] == files[i];
      var kwSystem := LastField(files[i].stem);
      if kwSystem != system {
        assert entries == prior;
        i := i + 1;
        continue;
      }
      var kwLang := files[i].grandparent;
      var kwName := InitField(files[i].stem);
      assert entries == prior + [Entry(files[i])];
      assert entries[..|entries| - 1] == prior;
      assert Build(entries) == Put(Build(prior), kwName, Keyword(kwLang, kwName, files[i].path));
      keywords := Put(keywords, kwName, Keyword(kwLang, kwName, files[i].path));
      i := i + 1;
    }
    assert files[..i] == files;
  }

  /**
   * A language has a library exactly when it is the last `_` field of some
   * library stem (the whole stem when the stem has no `_`), and the path is
   * that of the last such file.
   */
  lemma LibraryLookup(files: seq<LibraryFile>, lang: string)
    ensures Get(LibraryTable(files), lang).None? <==> forall i :: 0 <= i < |files| ==> LastField(files[i].stem) != lang
    ensures forall i :: 0 <= i < |files| && LastField(files[i].stem) == lang
                        && (forall j :: i < j < |files| ==> LastField(files[j].stem) != lang) ==>
              Get(LibraryTable(files), lang) == Some(files[i].path)
  {
    var entries := LibraryEntries(files);
    BuildLookup(entries, lang);
    assert forall i :: 0 <= i < |files| && LastField(files[i].stem) == lang
                       && (forall j :: i < j < |files| ==> LastField(files[j].stem) != lang) ==>
             LastAssigns(entries, i, lang);
  }

  /**
   * The keyword table holds a keyword only from a file built for the
   * system, keyed by the keyword's name.
   */
  lemma KeywordTableEntry(files: seq<KeywordFile>, system: string, k: int)
    requires 0 <= k < |KeywordTable(files, system)|
    ensures KeywordTable(files, system)[k].1.name == KeywordTable(files, system)[k].0
            && exists f :: f in files && ForSystem(f, system) && KeywordTable(files, system)[k].1 == KeywordOf(f)
  {
    var kept := Kept(files, system);
    var entries := KeywordEntries(files, system);
    KeywordEntriesKept(files, system);
    var table := KeywordTable(files, system);
    GetEntry(table, k);
    BuildLookup(entries, table[k].0);
    var e := LastEntry(entries, table[k].0);
    var f := kept[e];
    assert entries[e] == Entry(f);
    assert f in kept;
    KeptMembers(files, system);
  }

  /** A file built for the system puts a keyword in the table under its stem less the suffix. */
  lemma KeywordFileInTable(files: seq<KeywordFile>, system: string, f: KeywordFile)
    requires f in files && ForSystem(f, system)
    ensures Get(KeywordTable(files, system), InitField(f.stem)).Some?
  {
    var kept := Kept(files, system);
    var entries := KeywordEntries(files, system);
    KeywordEntriesKept(files, system);
    KeptMembers(files, system);
    var j :| 0 <= j < |kept| && kept[j] == f;
    assert entries[j].0 == InitField(f.stem);
    BuildLookup(entries, InitField(f.stem));
  }

  /** The filter keeps an element exactly when it is in `s` and accepted. */
  lemma FilterMembers<T>(s: seq<T>, keep: T -> bool)
    ensures forall x :: x in Filter(s, keep) <==> x in s && keep(x)
  {
    var r := Filter(s, keep);
    var picked := FilterSelection(s, keep);
    forall x | x in r
      ensures x in s && keep(x)
    {
      var j :| 0 <= j < |r| && r[j] == x;
      assert s[picked[j]] == x;
    }
    forall x | x in s && keep(x)
      ensures x in r
    {
      var i :| 0 <= i < |s| && s[i] == x;
      var j :| 0 <= j < |picked| && picked[j] == i;
      assert r[j] == x;
    }
  }

  /** A keyword file is kept exactly when it was walked and is built for the system. */
  lemma KeptMembers(files: seq<KeywordFile>, system: string)
    ensures forall f :: f in Kept(files, system) <==> f in files && ForSystem(f, system)
  {
    FilterMembers(files, f => ForSystem(f, system));
  }

  /**
   * When two kept files share a keyword name, the table holds the keyword of
   * the later one: the last assignment to a name wins.
   */
  lemma KeywordLookup(files: seq<KeywordFile>, system: string, i: nat)
    requires i < |Kept(files, system)|
    requires forall j :: i < j < |Kept(files, system)| ==>
               InitField(Kept(files, system)[j].stem) != InitField(Kept(files, system)[i].stem)
    ensures Get(KeywordTable(files, system), InitField(Kept(files, system)[i].stem))
            == Some(KeywordOf(Kept(files, system)[i]))
  {
    var kept := Kept(files, system);
    var entries := KeywordEntries(files, system);
    KeywordEntriesKept(files, system);
    var k := InitField(kept[i].stem);
    BuildLookup(entries, k);
    assert LastAssigns(entries, i, k);
  }

  /** The last entry assigning `k`, when one does. */
  lemma LastEntry<V>(entries: seq<(string, V)>, k: string) returns (e: nat)
    requires exists i :: 0 <= i < |entries| && entries[i].0 == k
    ensures LastAssigns(entries, e, k)
  {
    e := |entries| - 1;
    while entries[e].0 != k
      invariant 0 <= e < |entries|
      invariant exists i :: 0 <= i <= e && entries[i].0 == k
      invariant forall j :: e < j < |entries| ==> entries[j].0 != k
      decreases e
    {
      e := e - 1;
    }
  }

  /** A kept keyword's name and the system suffix spell its file stem again. */
  lemma KeywordNameSuffix(f: KeywordFile, system: string)
    requires ForSystem(f, system) && '_' in f.stem
    ensures Entry(f).0 + "_" + system == f.stem
  {
    SplitRoundTrip(f.stem);
  }
}
