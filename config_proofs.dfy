/**
  What the rule store promises, proved about the functions of module Config:
  how a line and its entry relate, what `eq` identifies, what the first-match
  lookup returns, and that a file written by `sync` loads back into the same
  rules.
 */
module ConfigProofs {
  import opened Wrappers
  import Regex
  import opened Config

  // ---------------------------------------------------------------------------
  // Parsing and rendering one line
  // ---------------------------------------------------------------------------

  /**
    The entry of a line always renders to a prefix of that line, holds no `=`
    in any of its strings, and renders back to the whole line exactly when the
    line holds at most one `=`.
   */
  lemma ParseRender(line: string)
    ensures Unambiguous(ParseEntry(line))
    ensures Render(ParseEntry(line)) <= line
    ensures Render(ParseEntry(line)) == line <==> multiset(line)['='] <= 1
  {
    ParseEntrySpec(line);
    var e := ParseEntry(line);
    if '=' in line {
      var r := e.pattern + "=" + e.value;
      assert multiset(r)['='] == 1 by {
        assert multiset(r) == multiset(e.pattern) + multiset("=") + multiset(e.value);
      }
      if line != r {
        var rest := line[|r| + 1..];
        assert line == r + "=" + rest;
        assert multiset(line) == multiset(r) + multiset("=") + multiset(rest);
      }
    }
  }

  /** An entry with no `=` in its strings is what its own rendering parses to. */
  lemma RenderParse(e: Entry)
    requires Unambiguous(e)
    ensures ParseEntry(Render(e)) == e
  {
    match e
    case Pair(p, v) => ParsePairLine(p, v);
    case Flag(f) => ParseEntrySpec(f);
  }

  /** Parsing is a projection: re-parsing the rendering of a parsed line gives the same entry. */
  lemma ParseIdempotent(line: string)
    ensures ParseEntry(Render(ParseEntry(line))) == ParseEntry(line)
  {
    ParseRender(line);
    RenderParse(ParseEntry(line));
  }

  /** On entries with no `=` in their strings, `eq` is exactly structural equality. */
  lemma EntryEqIff(a: Entry, b: Entry)
    requires Unambiguous(a) && Unambiguous(b)
    ensures EntryEq(a, b) <==> a == b
  {
    if EntryEq(a, b) {
      RenderParse(a);
      RenderParse(b);
    }
  }

  /** Outside that set `eq` identifies different entries: the pair `a`/`b` equals the flag `a=b`. */
  lemma EntryEqConflates()
    ensures EntryEq(Pair("a", "b"), Flag("a=b"))
    ensures Pair("a", "b") != Flag("a=b")
  {
    assert Render(Pair("a", "b")) == "a" + "=" + "b";
  }

  /** `eq` is an equivalence: it compares renderings. */
  lemma EntryEqEquivalence(a: Entry, b: Entry, c: Entry)
    ensures EntryEq(a, a)
    ensures EntryEq(a, b) ==> EntryEq(b, a)
    ensures EntryEq(a, b) && EntryEq(b, c) ==> EntryEq(a, c)
  {
  }

  /** The section-header test finds a `[` with a `]` somewhere after it. */
  lemma SectionHeaderSpec(line: string)
    ensures IsSectionHeader(line) <==>
      exists i, j :: 0 <= i < j < |line| && line[i] == '[' && line[j] == ']'
  {
    IndexFromSpec(line, '[', 0);
    var i := IndexFrom(line, '[', 0);
    if i < |line| {
      IndexFromSpec(line, ']', i + 1);
      var j := IndexFrom(line, ']', i + 1);
      if j < |line| {
        assert line[i] == '[' && line[j] == ']';
      } else {
        forall i', j' | 0 <= i' < j' < |line| && line[i'] == '['
          ensures line[j'] != ']'
        {
          assert i <= i';
        }
      }
    }
  }

  /** A line without `[` is never a section header. */
  lemma NoBracketNoHeader(line: string)
    requires '[' !in line
    ensures !IsSectionHeader(line)
  {
    SectionHeaderSpec(line);
  }

  // ---------------------------------------------------------------------------
  // Lookup
  // ---------------------------------------------------------------------------

  /** What a lookup answers when it stops at the pair `e`. */
  function Stop(e: Entry, re: Regex.Engine): Result<Option<string>, Regex.Error>
    requires e.Pair?
  {
    if !re.compiles(e.pattern) then Err(Regex.Invalid(e.pattern)) else Ok(Some(e.value))
  }

  /** `i` is where the lookup stops: every earlier entry is stepped over and `es[i]` is not. */
  predicate FirstStop(es: seq<Entry>, key: string, re: Regex.Engine, i: int)
  {
    && 0 <= i < |es|
    && !PassesOver(es[i], key, re)
    && forall j | 0 <= j < i :: PassesOver(es[j], key, re)
  }

  /** Entries the lookup steps over do not affect its answer. */
  lemma {:induction false} FindValueSkip(es: seq<Entry>, key: string, re: Regex.Engine, i: nat)
    requires i <= |es|
    requires forall j | 0 <= j < i :: PassesOver(es[j], key, re)
    ensures FindValue(es, key, re) == FindValue(es[i..], key, re)
  {
    if i > 0 {
      FindValueSkip(es[1..], key, re, i - 1);
      assert es[1..][i - 1..] == es[i..];
    }
  }

  /**
    The lookup answers the value of the first pair whose pattern matches, or
    the error of the first pair whose pattern does not compile, whichever comes
    first.
   */
  lemma FindValueAt(es: seq<Entry>, key: string, re: Regex.Engine, i: int)
    requires FirstStop(es, key, re, i)
    ensures es[i].Pair?
    ensures FindValue(es, key, re) == Stop(es[i], re)
    ensures re.compiles(es[i].pattern) ==> FindValue(es, key, re) == Ok(Some(es[i].value))
    ensures !re.compiles(es[i].pattern) ==> FindValue(es, key, re) == Err(Regex.Invalid(es[i].pattern))
  {
    FindValueSkip(es, key, re, i);
  }

  /** The lookup finds nothing exactly when it steps over every entry. */
  lemma {:induction false} FindValueNone(es: seq<Entry>, key: string, re: Regex.Engine)
    ensures FindValue(es, key, re) == Ok(None) <==> forall j | 0 <= j < |es| :: PassesOver(es[j], key, re)
  {
    if es != [] {
      FindValueNone(es[1..], key, re);
      assert forall j | 1 <= j < |es| :: es[j] == es[1..][j - 1];
    }
  }

  /** Any other answer comes from the first entry that is not stepped over. */
  lemma {:induction false} FindValueSound(es: seq<Entry>, key: string, re: Regex.Engine)
    ensures FindValue(es, key, re) != Ok(None) ==>
      exists i :: FirstStop(es, key, re, i) && FindValue(es, key, re) == Stop(es[i], re)
  {
    if es != [] {
      if PassesOver(es[0], key, re) {
        FindValueSound(es[1..], key, re);
        if FindValue(es, key, re) != Ok(None) {
          var i :| FirstStop(es[1..], key, re, i) && FindValue(es[1..], key, re) == Stop(es[1..][i], re);
          assert FirstStop(es, key, re, i + 1);
        }
      } else {
        assert FirstStop(es, key, re, 0);
      }
    }
  }

  /** A lookup over two runs of entries consults the second only when the first finds nothing. */
  lemma {:induction false} FindValueAppend(a: seq<Entry>, b: seq<Entry>, key: string, re: Regex.Engine)
    ensures FindValue(a + b, key, re) ==
      if FindValue(a, key, re) == Ok(None) then FindValue(b, key, re) else FindValue(a, key, re)
  {
    if a == [] {
      assert a + b == b;
    } else {
      assert (a + b)[0] == a[0];
      assert (a + b)[1..] == a[1..] + b;
      FindValueAppend(a[1..], b, key, re);
    }
  }

  /** Appending an entry (`add_entry`) never changes a found value or an error; only `Ok(None)` may change. */
  lemma AddEntryKeepsAnswers(es: seq<Entry>, e: Entry, key: string, re: Regex.Engine)
    requires FindValue(es, key, re) != Ok(None)
    ensures FindValue(es + [e], key, re) == FindValue(es, key, re)
  {
    FindValueAppend(es, [e], key, re);
  }

  /** Flags never take part in a lookup: only the pairs, in order, decide it. */
  lemma {:induction false} FindValuePairs(es: seq<Entry>, key: string, re: Regex.Engine)
    ensures FindValue(es, key, re) == FindValue(Pairs(es), key, re)
  {
    if es != [] {
      var init, last := es[..|es| - 1], es[|es| - 1];
      assert es == init + [last];
      FindValuePairs(init, key, re);
      FindValueAppend(init, [last], key, re);
      if last.Pair? {
        FindValueAppend(Pairs(init), [last], key, re);
      } else {
        assert Pairs(es) == Pairs(init);
        assert FindValue([last], key, re) == Ok(None);
      }
    }
  }

  /** The flags alone never answer a lookup. */
  lemma {:induction false} FindValueFlags(es: seq<Entry>, key: string, re: Regex.Engine)
    ensures FindValue(Flags(es), key, re) == Ok(None)
  {
    FlagsAreFlags(es);
    FindValueNone(Flags(es), key, re);
  }

  // ---------------------------------------------------------------------------
  // The two sections of the file
  // ---------------------------------------------------------------------------

  /** `Pairs` keeps exactly the pairs of `es` and `Flags` exactly the flags, and together they are a rearrangement of `es`. */
  lemma {:induction false} PartitionSpec(es: seq<Entry>)
    ensures forall e | e in Pairs(es) :: e.Pair? && e in es
    ensures forall e | e in Flags(es) :: e.Flag? && e in es
    ensures multiset(Pairs(es)) + multiset(Flags(es)) == multiset(es)
  {
    if es != [] {
      var init, last := es[..|es| - 1], es[|es| - 1];
      assert es == init + [last];
      PartitionSpec(init);
    }
  }

  lemma FlagsAreFlags(es: seq<Entry>)
    ensures forall j | 0 <= j < |Flags(es)| :: Flags(es)[j].Flag?
  {
    PartitionSpec(es);
    assert forall j | 0 <= j < |Flags(es)| :: Flags(es)[j] in Flags(es);
  }

  /** Selecting the pairs (or the flags) distributes over concatenation. */
  lemma {:induction false} PartitionAppend(a: seq<Entry>, b: seq<Entry>)
    ensures Pairs(a + b) == Pairs(a) + Pairs(b)
    ensures Flags(a + b) == Flags(a) + Flags(b)
  {
    if b != [] {
      var init, last := b[..|b| - 1], b[|b| - 1];
      assert (a + b)[..|a + b| - 1] == a + init;
      assert (a + b)[|a + b| - 1] == last;
      PartitionAppend(a, init);
    } else {
      assert a + b == a;
    }
  }

  /** Selecting again changes nothing, and the pairs hold no flag and the flags no pair. */
  lemma {:induction false} PartitionIdempotent(es: seq<Entry>)
    ensures Pairs(Pairs(es)) == Pairs(es) && Flags(Pairs(es)) == []
    ensures Flags(Flags(es)) == Flags(es) && Pairs(Flags(es)) == []
  {
    if es != [] {
      var init, last := es[..|es| - 1], es[|es| - 1];
      PartitionIdempotent(init);
      PartitionAppend(Pairs(init), if last.Pair? then [last] else []);
      PartitionAppend(Flags(init), if last.Flag? then [last] else []);
    }
  }

  // ---------------------------------------------------------------------------
  // Reading text back: `load`
  // ---------------------------------------------------------------------------

  /** An empty configuration file loads no entries. */
  lemma LoadEmpty()
    ensures LoadEntries("") == []
  {
  }

  /** A final line without a newline loses its last character to the pop: `a=bc` loads as the pair `a`/`b`. */
  lemma LoadUnterminated()
    ensures LoadEntries("a=bc") == [Pair("a", "b")]
  {
    var text := "a=bc";
    IndexFromIs(text, '\n', 0, 4);
    LoadFromStep(text, 0);
    assert text[0..4] == text;
    assert LoadFrom(text, 4) == [];
    assert text[..3] == "a" + "=" + "b";
    NoBracketNoHeader("a=b");
    ParsePairLine("a", "b");
  }

  /** Every entry `load` produces holds no `=` in its strings. */
  lemma {:induction false} LoadUnambiguous(text: string, pos: nat)
    requires pos <= |text|
    ensures forall e | e in LoadFrom(text, pos) :: Unambiguous(e)
    decreases |text| - pos
  {
    if pos < |text| {
      var n := LineEnd(text, pos);
      ChunkUnambiguous(text[pos..n]);
      LoadUnambiguous(text, n);
      LoadFromStep(text, pos);
    }
  }

  lemma ChunkUnambiguous(chunk: string)
    requires chunk != []
    ensures forall e | e in ChunkEntries(chunk) :: Unambiguous(e)
  {
    ParseRender(chunk[..|chunk| - 1]);
  }

  lemma LineEndShift(x: string, y: string, k: nat)
    requires k < |y|
    ensures LineEnd(x + y, |x| + k) == |x| + LineEnd(y, k)
  {
    IndexFromSpec(y, '\n', k);
    var i := IndexFrom(y, '\n', k);
    assert forall j | |x| + k <= j < |x| + i :: (x + y)[j] == y[j - |x|];
    IndexFromIs(x + y, '\n', |x| + k, |x| + i);
  }

  lemma LineEndPrefix(a: string, b: string, pos: nat)
    requires pos < |a| && a[|a| - 1] == '\n'
    ensures LineEnd(a + b, pos) == LineEnd(a, pos) <= |a|
    ensures (a + b)[pos..LineEnd(a, pos)] == a[pos..LineEnd(a, pos)]
  {
    IndexFromSpec(a, '\n', pos);
    var i := IndexFrom(a, '\n', pos);
    assert i < |a|;
    assert forall j | pos <= j < i :: (a + b)[j] == a[j];
    IndexFromIs(a + b, '\n', pos, i);
  }

  /** `LoadFrom` at `pos`, unfolded once. */
  lemma LoadFromStep(text: string, pos: nat)
    requires pos < |text|
    ensures LoadFrom(text, pos) == ChunkEntries(text[pos..LineEnd(text, pos)]) + LoadFrom(text, LineEnd(text, pos))
  {
  }

  /** Loading text that follows a prefix does not depend on the prefix. */
  lemma {:induction false} LoadFromShift(x: string, y: string, k: nat)
    requires k <= |y|
    ensures LoadFrom(x + y, |x| + k) == LoadFrom(y, k)
    decreases |y| - k
  {
    if k < |y| {
      LineEndShift(x, y, k);
      var n := LineEnd(y, k);
      assert (x + y)[|x| + k..|x| + n] == y[k..n];
      LoadFromShift(x, y, n);
      LoadFromStep(x + y, |x| + k);
      LoadFromStep(y, k);
    }
  }

  lemma {:induction false} LoadFromPrefix(a: string, b: string, pos: nat)
    requires pos <= |a|
    requires a == [] || a[|a| - 1] == '\n'
    ensures LoadFrom(a + b, pos) == LoadFrom(a, pos) + LoadEntries(b)
    decreases |a| - pos
  {
    if pos == |a| {
      LoadFromShift(a, b, 0);
      assert LoadFrom(a, pos) == [];
    } else {
      LineEndPrefix(a, b, pos);
      LoadFromPrefix(a, b, LineEnd(a, pos));
      LoadFromPrefixStep(a, b, pos);
    }
  }

  /** One step of LoadFromPrefix: the first chunk is the same in `a + b` as in `a`. */
  lemma LoadFromPrefixStep(a: string, b: string, pos: nat)
    requires pos < |a| && LineEnd(a + b, pos) == LineEnd(a, pos)
    requires (a + b)[pos..LineEnd(a, pos)] == a[pos..LineEnd(a, pos)]
    requires LoadFrom(a + b, LineEnd(a, pos)) == LoadFrom(a, LineEnd(a, pos)) + LoadEntries(b)
    ensures LoadFrom(a + b, pos) == LoadFrom(a, pos) + LoadEntries(b)
  {
    var n := LineEnd(a, pos);
    var c, rest := ChunkEntries(a[pos..n]), LoadFrom(a, n);
    LoadFromStep(a + b, pos);
    LoadFromStep(a, pos);
    Associative(c, rest, LoadEntries(b));
  }

  /** Loading text made of whole lines followed by more text loads the two one after the other. */
  lemma LoadAppend(a: string, b: string)
    requires a == [] || a[|a| - 1] == '\n'
    ensures LoadEntries(a + b) == LoadEntries(a) + LoadEntries(b)
  {
    LoadFromPrefix(a, b, 0);
  }

  /** What `load` keeps of a run of lines, in order. */
  function KeptEntries(ls: seq<string>): seq<Entry>
  {
    if ls == [] then [] else KeptEntries(ls[..|ls| - 1]) + LineEntries(ls[|ls| - 1])
  }

  /** One newline-terminated line loads as the entry `load` keeps for it. */
  lemma LoadOneLine(l: string)
    requires '\n' !in l
    ensures LoadEntries(l + "\n") == LineEntries(l)
  {
    var text := l + "\n";
    assert forall j | 0 <= j < |l| :: text[j] == l[j];
    IndexFromIs(text, '\n', 0, |l|);
    LoadFromStep(text, 0);
    assert LoadFrom(text, |text|) == [];
    assert text[0..|text|] == text;
    assert text[..|text| - 1] == l;
  }

  lemma UnlinesEnds(ls: seq<string>)
    ensures Unlines(ls) == [] || Unlines(ls)[|Unlines(ls)| - 1] == '\n'
  {
  }

  /** Text written line by line with `file_writeln` loads as the entries kept for those lines. */
  lemma {:induction false} LoadUnlines(ls: seq<string>)
    requires OneLines(ls)
    ensures LoadEntries(Unlines(ls)) == KeptEntries(ls)
  {
    if ls != [] {
      var init, last := ls[..|ls| - 1], ls[|ls| - 1];
      LoadUnlines(init);
      UnlinesEnds(init);
      Associative(Unlines(init), last, "\n");
      LoadAppend(Unlines(init), last + "\n");
      LoadOneLine(last);
    }
  }

  lemma {:induction false} UnlinesAppend(a: seq<string>, b: seq<string>)
    ensures Unlines(a + b) == Unlines(a) + Unlines(b)
  {
    if b != [] {
      var init, last := b[..|b| - 1], b[|b| - 1];
      assert (a + b)[..|a + b| - 1] == a + init;
      assert (a + b)[|a + b| - 1] == last;
      UnlinesAppend(a, init);
    } else {
      assert a + b == a;
    }
  }

  lemma {:induction false} KeptAppend(a: seq<string>, b: seq<string>)
    ensures KeptEntries(a + b) == KeptEntries(a) + KeptEntries(b)
  {
    if b != [] {
      var init, last := b[..|b| - 1], b[|b| - 1];
      assert (a + b)[..|a + b| - 1] == a + init;
      assert (a + b)[|a + b| - 1] == last;
      KeptAppend(a, init);
    } else {
      assert a + b == a;
    }
  }

  /**
    An entry that survives a write and a read: no `=` inside its strings, and a
    non-empty one-line rendering that is not a section header.
   */
  predicate Storable(e: Entry)
  {
    Unambiguous(e) && Render(e) != "" && '\n' !in Render(e) && !IsSectionHeader(Render(e))
  }

  /** Lines rendered from storable entries load back as those entries. */
  lemma {:induction false} KeptRendered(es: seq<Entry>)
    requires forall e | e in es :: Storable(e)
    ensures KeptEntries(Rendered(es)) == es
  {
    if es != [] {
      var init, last := es[..|es| - 1], es[|es| - 1];
      assert Rendered(es)[..|es| - 1] == Rendered(init);
      assert last in es;
      assert forall e | e in init :: e in es;
      KeptRendered(init);
      RenderParse(last);
    }
  }

  /** The lines `sync` writes, with the blank line before `[flags]` as a line of its own. */
  function SyncLines(es: seq<Entry>): seq<string>
  {
    ["[colours]"] + Rendered(Pairs(es)) + ["", "[flags]"] + Rendered(Flags(es))
  }

  lemma SyncTextLines(es: seq<Entry>)
    ensures SyncText(es) == Unlines(SyncLines(es))
  {
    var c, f := ["[colours]"] + Rendered(Pairs(es)), Rendered(Flags(es));
    UnlinesAppend(c + ["\n[flags]"], f);
    UnlinesAppend(c, ["\n[flags]"]);
    UnlinesAppend(c + ["", "[flags]"], f);
    UnlinesAppend(c, ["", "[flags]"]);
    assert Unlines(["", "[flags]"]) == Unlines(["\n[flags]"]) by {
      assert ["", "[flags]"][..1] == [""];
    }
  }

  lemma HeadersAreSkipped()
    ensures LineEntries("[colours]") == [] && LineEntries("") == [] && LineEntries("[flags]") == []
  {
    assert "[colours]"[0] == '[' && "[colours]"[8] == ']';
    assert "[flags]"[0] == '[' && "[flags]"[6] == ']';
    SectionHeaderSpec("[colours]");
    SectionHeaderSpec("[flags]");
  }

  /** No element of `ls` holds a newline. */
  predicate OneLines(ls: seq<string>)
  {
    forall j | 0 <= j < |ls| :: '\n' !in ls[j]
  }

  lemma OneLinesAppend(a: seq<string>, b: seq<string>)
    requires OneLines(a) && OneLines(b)
    ensures OneLines(a + b)
  {
    assert forall j | |a| <= j < |a + b| :: (a + b)[j] == b[j - |a|];
  }

  /** Storable entries render to lines without a newline. */
  lemma RenderedOneLine(es: seq<Entry>)
    requires forall e | e in es :: Storable(e)
    ensures OneLines(Rendered(es))
  {
    forall j | 0 <= j < |Rendered(es)| ensures '\n' !in Rendered(es)[j] {
      assert es[j] in es;
    }
  }

  lemma SyncLinesOneLine(es: seq<Entry>)
    requires forall e | e in es :: Storable(e)
    ensures OneLines(SyncLines(es))
  {
    PartitionSpec(es);
    RenderedOneLine(Pairs(es));
    RenderedOneLine(Flags(es));
    assert OneLines(["[colours]"]) && OneLines(["", "[flags]"]);
    OneLinesAround(["[colours]"], Rendered(Pairs(es)), ["", "[flags]"], Rendered(Flags(es)));
  }

  /** Four runs of newline-free lines, one after the other, are newline-free. */
  lemma OneLinesAround(h: seq<string>, c: seq<string>, m: seq<string>, f: seq<string>)
    requires OneLines(h) && OneLines(c) && OneLines(m) && OneLines(f)
    ensures OneLines(h + c + m + f)
  {
    OneLinesAppend(h, c);
    OneLinesAppend(h + c, m);
    OneLinesAppend(h + c + m, f);
  }

  lemma SectionLinesSkipped()
    ensures KeptEntries(["[colours]"]) == [] && KeptEntries(["", "[flags]"]) == []
  {
    HeadersAreSkipped();
    assert ["", "[flags]"][..1] == [""];
    assert [""][..0] == [] && ["[colours]"][..0] == [];
  }

  /** Of the lines `sync` writes, `load` keeps only those of the entries. */
  lemma KeptSyncLines(es: seq<Entry>)
    ensures KeptEntries(SyncLines(es)) == KeptEntries(Rendered(Pairs(es))) + KeptEntries(Rendered(Flags(es)))
  {
    SectionLinesSkipped();
    KeptAround(["[colours]"], Rendered(Pairs(es)), ["", "[flags]"], Rendered(Flags(es)));
  }

  lemma KeptAround(h: seq<string>, c: seq<string>, m: seq<string>, f: seq<string>)
    requires KeptEntries(h) == [] && KeptEntries(m) == []
    ensures KeptEntries(h + c + m + f) == KeptEntries(c) + KeptEntries(f)
  {
    KeptAppend(h + c + m, f);
    KeptAppend(h + c, m);
    KeptAppend(h, c);
  }

  /**
    The file `sync` writes loads back into the same rules, pairs first and then
    flags, each in their original order.
   */
  lemma SyncRoundTrip(es: seq<Entry>)
    requires forall e | e in es :: Storable(e)
    ensures LoadEntries(SyncText(es)) == Pairs(es) + Flags(es)
  {
    PartitionSpec(es);
    SyncTextLines(es);
    SyncLinesOneLine(es);
    LoadUnlines(SyncLines(es));
    KeptSyncLines(es);
    KeptRendered(Pairs(es));
    KeptRendered(Flags(es));
  }

  /** Writing, reading back and writing again produces the same file. */
  lemma SyncStable(es: seq<Entry>)
    requires forall e | e in es :: Storable(e)
    ensures SyncText(LoadEntries(SyncText(es))) == SyncText(es)
  {
    SyncRoundTrip(es);
    PartitionAppend(Pairs(es), Flags(es));
    PartitionIdempotent(es);
    assert Pairs(Pairs(es) + Flags(es)) == Pairs(es) + [];
    assert Flags(Pairs(es) + Flags(es)) == [] + Flags(es);
    SyncTextCongruent(Pairs(es) + Flags(es), es);
  }

  /** The file `sync` writes depends only on the pairs and the flags, in order. */
  lemma SyncTextCongruent(x: seq<Entry>, y: seq<Entry>)
    requires Pairs(x) == Pairs(y) && Flags(x) == Flags(y)
    ensures SyncText(x) == SyncText(y)
  {
  }

  /** After a write and a read, every lookup gives the answer it gave before. */
  lemma SyncPreservesLookups(es: seq<Entry>, key: string, re: Regex.Engine)
    requires forall e | e in es :: Storable(e)
    ensures FindValue(LoadEntries(SyncText(es)), key, re) == FindValue(es, key, re)
  {
    SyncRoundTrip(es);
    FindValueAppend(Pairs(es), Flags(es), key, re);
    FindValueFlags(es, key, re);
    FindValuePairs(es, key, re);
  }

  /** A pair with no `=`, `[` or newline in its pattern and value is storable. */
  lemma StorablePair(p: string, v: string)
    requires '=' !in p && '[' !in p && '\n' !in p
    requires '=' !in v && '[' !in v && '\n' !in v
    ensures Storable(Pair(p, v))
  {
    assert forall k | 0 <= k < |p + "=" + v| :: (p + "=" + v)[k] in p || (p + "=" + v)[k] == '=' || (p + "=" + v)[k] in v;
    NoBracketNoHeader(p + "=" + v);
  }

  /** A non-empty flag with no `=`, `[` or newline in its name is storable. */
  lemma StorableFlag(f: string)
    requires f != "" && '=' !in f && '[' !in f && '\n' !in f
    ensures Storable(Flag(f))
  {
    NoBracketNoHeader(f);
  }

  /** The default rules survive a write and a read. */
  lemma DefaultsStorable()
    ensures forall e | e in DefaultEntries() :: Storable(e)
  {
    JsRuleStorable();
    JavaRuleStorable();
    NoPermissionsStorable();
  }

  lemma NoPermissionsStorable()
    ensures Storable(Flag(NoPermissions))
  {
    StorableFlag(NoPermissions);
  }

  lemma JsRuleStorable()
    ensures Storable(Pair(JsPattern, "yellow"))
  {
    StorablePair(JsPattern, "yellow");
  }

  lemma JavaRuleStorable()
    ensures Storable(Pair(JavaPattern, "orange"))
  {
    StorablePair(JavaPattern, "orange");
  }

  lemma UnlinesOne(x: string)
    ensures Unlines([x]) == x + "\n"
  {
    assert [x][..0] == [];
  }

  /** The layout of the file `sync` writes: the `[colours]` header, the pairs, a blank line, the `[flags]` header, the flags. */
  lemma SyncTextLayout(es: seq<Entry>)
    ensures SyncText(es) ==
      "[colours]\n" + Unlines(Rendered(Pairs(es))) + "\n[flags]\n" + Unlines(Rendered(Flags(es)))
  {
    var c, f := Rendered(Pairs(es)), Rendered(Flags(es));
    UnlinesAppend(["[colours]"] + c + ["\n[flags]"], f);
    UnlinesAppend(["[colours]"] + c, ["\n[flags]"]);
    UnlinesAppend(["[colours]"], c);
    UnlinesOne("[colours]");
    UnlinesOne("\n[flags]");
  }

  /** The default rules split into the two `.js`/`.java` pairs and the `no_permissions` flag. */
  lemma DefaultPartition()
    ensures Pairs(DefaultEntries()) == [Pair(JsPattern, "yellow"), Pair(JavaPattern, "orange")]
    ensures Flags(DefaultEntries()) == [Flag(NoPermissions)]
  {
    PartitionOfThree(Pair(JsPattern, "yellow"), Pair(JavaPattern, "orange"), Flag(NoPermissions));
  }

  lemma PartitionOfThree(a: Entry, b: Entry, c: Entry)
    requires a.Pair? && b.Pair? && c.Flag?
    ensures Pairs([a, b, c]) == [a, b] && Flags([a, b, c]) == [c]
  {
    assert [a][..0] == [];
    assert Pairs([a]) == [a] && Flags([a]) == [];
    assert [a, b][..1] == [a];
    assert Pairs([a, b]) == [a, b] && Flags([a, b]) == [];
    assert [a, b, c][..2] == [a, b];
  }

  lemma UnlinesTwo(x: string, y: string)
    ensures Unlines([x, y]) == x + "\n" + y + "\n"
  {
    assert [x, y][..1] == [x];
    UnlinesOne(x);
  }

  /** The file written on the first run, when no configuration existed. */
  lemma DefaultFile()
    ensures SyncText(DefaultEntries()) ==
      "[colours]\n" + JsRule + "\n" + JavaRule + "\n" + "\n[flags]\n" + NoPermissions + "\n"
  {
    DefaultPartition();
    assert Render(Pair(JsPattern, "yellow")) == JsRule;
    assert Render(Pair(JavaPattern, "orange")) == JavaRule;
    assert Rendered(Pairs(DefaultEntries())) == [JsRule, JavaRule];
    assert Rendered(Flags(DefaultEntries())) == [NoPermissions];
    UnlinesTwo(JsRule, JavaRule);
    UnlinesOne(NoPermissions);
    SyncTextLayout(DefaultEntries());
    LayoutConcat("[colours]\n", JsRule, JavaRule, "\n[flags]\n", NoPermissions);
  }

  lemma LayoutConcat(h: string, x: string, y: string, m: string, z: string)
    ensures h + (x + "\n" + y + "\n") + m + (z + "\n") == h + x + "\n" + y + "\n" + m + z + "\n"
  {
  }
}
