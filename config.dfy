/**
  The rule store of the classifier (pls-classifier/src/configuration.rs): the
  entries of the configuration file, how one line becomes an entry, how the
  file is read (`load`) and rewritten (`sync`), the first-match lookup
  (`get_value`) and the write-back on teardown (`Drop`).

  The configuration file is modelled as the text it holds; the disk cell at
  `$HOME/.pls/conf` is a `ConfFile` whose contents are `None` while the file
  does not exist.
 */
module Config {
  import opened Wrappers
  import Regex

  /** One rule of the configuration: a pattern mapped to a colour value, or a bare flag. */
  datatype Entry = Pair(pattern: string, value: string) | Flag(name: string)

  /** Position of the first `c` in `s` at or after `from`, or `|s|` when there is none. */
  function IndexFrom(s: string, c: char, from: nat): (i: nat)
    requires from <= |s|
    ensures from <= i <= |s|
    decreases |s| - from
  {
    if from == |s| then |s|
    else if s[from] == c then from
    else IndexFrom(s, c, from + 1)
  }

  /** `IndexFrom` finds the first `c` at or after `from`. */
  lemma {:induction false} IndexFromSpec(s: string, c: char, from: nat)
    requires from <= |s|
    ensures forall k | from <= k < IndexFrom(s, c, from) :: s[k] != c
    ensures IndexFrom(s, c, from) < |s| ==> s[IndexFrom(s, c, from)] == c
    decreases |s| - from
  {
    if from < |s| && s[from] != c {
      IndexFromSpec(s, c, from + 1);
    }
  }

  /** Conversely, a position `k` with no `c` between `from` and it, and a `c` at it (or the end), is what `IndexFrom` finds. */
  lemma {:induction false} IndexFromIs(s: string, c: char, from: nat, k: nat)
    requires from <= k <= |s|
    requires forall j | from <= j < k :: s[j] != c
    requires k < |s| ==> s[k] == c
    ensures IndexFrom(s, c, from) == k
    decreases k - from
  {
    if from < k {
      IndexFromIs(s, c, from + 1, k);
    }
  }

  /**
    `ConfigurationEntry::new`: a line holding an `=` (what the regex `.*=.*`
    detects) is split at every `=` and only the first two pieces are kept;
    any other line is a flag, unchanged (see ParseEntrySpec).
   */
  function ParseEntry(line: string): (e: Entry)
    ensures e.Flag? ==> e.name == line
    ensures e.Pair? ==> e.pattern + "=" <= line
  {
    IndexFromSpec(line, '=', 0);
    var i := IndexFrom(line, '=', 0);
    if i < |line| then
      Pair(line[..i], line[i + 1..IndexFrom(line, '=', i + 1)])
    else
      Flag(line)
  }

  /**
    What `ConfigurationEntry::new` promises: a line without `=` is a flag holding
    the line; a line with one is the pair of the text before the first `=` and
    the text between the first and the second `=` (or the end), and whatever
    follows a second `=` is dropped.
   */
  lemma ParseEntrySpec(line: string)
    ensures '=' !in line ==> ParseEntry(line) == Flag(line)
    ensures '=' in line ==>
      var e := ParseEntry(line);
      && e.Pair? && '=' !in e.pattern && '=' !in e.value
      && (line == e.pattern + "=" + e.value || e.pattern + "=" + e.value + "=" <= line)
  {
    IndexFromSpec(line, '=', 0);
    var i := IndexFrom(line, '=', 0);
    if i < |line| {
      IndexFromSpec(line, '=', i + 1);
      var j := IndexFrom(line, '=', i + 1);
      var p, v := line[..i], line[i + 1..j];
      NotInSlice(line, '=', 0, i);
      NotInSlice(line, '=', i + 1, j);
      if j == |line| {
        assert line == p + "=" + v;
      } else {
        assert p + "=" + v + "=" == line[..j + 1];
      }
    } else {
      assert forall k | 0 <= k < |line| :: line[k] != '=';
    }
  }

  /** A stretch of `s` in which no position holds `c` does not hold `c`. */
  lemma NotInSlice(s: string, c: char, from: nat, to: nat)
    requires from <= to <= |s|
    requires forall k | from <= k < to :: s[k] != c
    ensures c !in s[from..to]
  {
    forall k | 0 <= k < to - from ensures s[from..to][k] != c {
      assert s[from..to][k] == s[from + k];
    }
  }

  /** A pair whose pattern and value hold no `=` parses back from its rendering. */
  lemma ParsePairLine(p: string, v: string)
    requires '=' !in p && '=' !in v
    ensures ParseEntry(p + "=" + v) == Pair(p, v)
  {
    var line := p + "=" + v;
    assert forall k | 0 <= k < |p| :: line[k] == p[k];
    IndexFromIs(line, '=', 0, |p|);
    assert forall k | |p| + 1 <= k < |line| :: line[k] == v[k - |p| - 1];
    IndexFromIs(line, '=', |p| + 1, |line|);
    assert line[..|p|] == p;
    assert line[|p| + 1..|line|] == v;
  }

  /** `Display::fmt`: the line an entry is stored as. */
  function Render(e: Entry): (line: string)
    ensures Unambiguous(e) ==> (e.Pair? <==> '=' in line)
  {
    assert e.Pair? ==> (e.pattern + "=" + e.value)[|e.pattern|] == '=';
    match e
    case Pair(p, v) => p + "=" + v
    case Flag(f) => f
  }

  /** `PartialEq::eq`: two entries are equal when they render to the same line. */
  predicate EntryEq(a: Entry, b: Entry)
    ensures a == b ==> EntryEq(a, b)
    ensures a.Flag? && b.Flag? ==> (EntryEq(a, b) <==> a == b)
  {
    Render(a) == Render(b)
  }

  /** An entry whose rendering parses back to it: no `=` inside any of its strings. */
  predicate Unambiguous(e: Entry)
  {
    match e
    case Pair(p, v) => '=' !in p && '=' !in v
    case Flag(f) => '=' !in f
  }

  /**
    The section-header regex `.*\[.*\].*`, searched for anywhere in the line: a
    `]` somewhere after the first `[` (see SectionHeaderSpec). The regex's `.`
    does not cross a newline, but no line handed to this test holds one.
   */
  predicate IsSectionHeader(line: string)
    ensures IsSectionHeader(line) ==> '[' in line && ']' in line
  {
    IndexFromSpec(line, '[', 0);
    var i := IndexFrom(line, '[', 0);
    i < |line| && (IndexFromSpec(line, ']', i + 1); IndexFrom(line, ']', i + 1) < |line|)
  }

  /**
    Where one `read_line` call starting at `pos` stops: just after the first
    newline, or at the end of a text that has none left.
   */
  function LineEnd(text: string, pos: nat): (n: nat)
    requires pos < |text|
    ensures pos < n <= |text|
  {
    var i := IndexFrom(text, '\n', pos);
    if i < |text| then i + 1 else |text|
  }

  /**
    What `load` makes of one chunk returned by `read_line`: its last character
    is popped (the newline, or the last real character of a final line that has
    none); an empty line or a section header yields nothing.
   */
  function ChunkEntries(chunk: string): (es: seq<Entry>)
    requires chunk != []
    ensures |es| <= 1
    ensures es != [] && es[0].Flag? ==> es[0].name == chunk[..|chunk| - 1]
  {
    LineEntries(chunk[..|chunk| - 1])
  }

  /** What `load` keeps of one line once its newline is gone: nothing for an empty line or a section header. */
  function LineEntries(line: string): seq<Entry>
  {
    if line != "" && !IsSectionHeader(line) then [ParseEntry(line)] else []
  }

  /** The entries `load` appends for the chunks of `text` from `pos` on. */
  function LoadFrom(text: string, pos: nat): seq<Entry>
    requires pos <= |text|
    decreases |text| - pos
  {
    if pos == |text| then []
    else
      var n := LineEnd(text, pos);
      ChunkEntries(text[pos..n]) + LoadFrom(text, n)
  }

  /** The entries `load` appends when the configuration file holds `text`. */
  function LoadEntries(text: string): (es: seq<Entry>)
    ensures |es| <= |text|
  {
    LoadFromBound(text, 0);
    LoadFrom(text, 0)
  }

  /** Every chunk is at least one character long and yields at most one entry. */
  lemma {:induction false} LoadFromBound(text: string, pos: nat)
    requires pos <= |text|
    ensures |LoadFrom(text, pos)| <= |text| - pos
    decreases |text| - pos
  {
    if pos < |text| {
      LoadFromBound(text, LineEnd(text, pos));
    }
  }

  /** The three lines `use_default_configuration` adds: `.*\.js$=yellow`, `.*\.java$=orange`, `no_permissions`. */
  const JsPattern: string := ".*\\.js$"
  const JavaPattern: string := ".*\\.java$"
  const JsRule: string := JsPattern + "=yellow"
  const JavaRule: string := JavaPattern + "=orange"
  const NoPermissions: string := "no_permissions"

  /** The default rules: two pairs, then the flag `no_permissions`. */
  function DefaultEntries(): seq<Entry>
  {
    [Pair(JsPattern, "yellow"), Pair(JavaPattern, "orange"), Flag(NoPermissions)]
  }

  /** The three default lines parse to the default rules, in that order. */
  lemma DefaultRules()
    ensures [ParseEntry(JsRule), ParseEntry(JavaRule), ParseEntry(NoPermissions)] == DefaultEntries()
  {
    DefaultJsRule();
    DefaultJavaRule();
    DefaultFlagRule();
  }

  lemma DefaultJsRule()
    ensures ParseEntry(JsRule) == Pair(JsPattern, "yellow")
  {
    assert JsRule == JsPattern + "=" + "yellow";
    ParsePairLine(JsPattern, "yellow");
  }

  lemma DefaultJavaRule()
    ensures ParseEntry(JavaRule) == Pair(JavaPattern, "orange")
  {
    assert JavaRule == JavaPattern + "=" + "orange";
    ParsePairLine(JavaPattern, "orange");
  }

  lemma DefaultFlagRule()
    ensures ParseEntry(NoPermissions) == Flag(NoPermissions)
  {
    assert '=' !in NoPermissions;
    FlagLine(NoPermissions);
  }

  /** A line without `=` is the flag holding it. */
  lemma FlagLine(line: string)
    requires '=' !in line
    ensures ParseEntry(line) == Flag(line)
  {
    ParseEntrySpec(line);
  }

  /** The pairs among `es`, in order (`entries.iter().filter(is_pair)`). */
  function Pairs(es: seq<Entry>): seq<Entry>
  {
    if es == [] then []
    else Pairs(es[..|es| - 1]) + (if es[|es| - 1].Pair? then [es[|es| - 1]] else [])
  }

  /** The flags among `es`, in order (`entries.iter().filter(!is_pair)`). */
  function Flags(es: seq<Entry>): seq<Entry>
  {
    if es == [] then []
    else Flags(es[..|es| - 1]) + (if es[|es| - 1].Flag? then [es[|es| - 1]] else [])
  }

  /** The renderings of `es`, in order. */
  function Rendered(es: seq<Entry>): seq<string>
  {
    seq(|es|, i requires 0 <= i < |es| => Render(es[i]))
  }

  /** The text `file_writeln` produces for `ls`, one call per element. */
  function Unlines(ls: seq<string>): string
  {
    if ls == [] then "" else Unlines(ls[..|ls| - 1]) + ls[|ls| - 1] + "\n"
  }

  /** The file `sync` writes for `es`: the pairs under `[colours]`, a blank line, the flags under `[flags]`. */
  function SyncText(es: seq<Entry>): (text: string)
    ensures text != [] && text[|text| - 1] == '\n'
  {
    Unlines(["[colours]"] + Rendered(Pairs(es)) + ["\n[flags]"] + Rendered(Flags(es)))
  }

  /** The entry a lookup steps over: a flag, or a pair whose pattern compiles and does not match. */
  predicate PassesOver(e: Entry, key: string, re: Regex.Engine)
  {
    e.Flag? || (re.compiles(e.pattern) && !re.isMatch(e.pattern, key))
  }

  /**
    `get_value`: the scan in order over the entries; the first pair whose pattern
    does not compile ends it with an error, the first pair whose pattern matches
    ends it with that pair's value.
   */
  function FindValue(es: seq<Entry>, key: string, re: Regex.Engine): (r: Result<Option<string>, Regex.Error>)
    ensures r.Ok? && r.value.Some? ==> exists e | e in es :: e.Pair? && re.compiles(e.pattern) && e.value == r.value.value
    ensures r.Err? ==> exists e | e in es :: e.Pair? && !re.compiles(e.pattern) && r.error == Regex.Invalid(e.pattern)
  {
    if es == [] then Ok(None)
    else match es[0]
      case Flag(_) => FindValue(es[1..], key, re)
      case Pair(p, v) =>
        if !re.compiles(p) then Err(Regex.Invalid(p))
        else if re.isMatch(p, key) then Ok(Some(v))
        else FindValue(es[1..], key, re)
  }

  lemma Associative<T>(a: seq<T>, b: seq<T>, c: seq<T>)
    ensures (a + b) + c == a + (b + c)
  {
  }

  lemma UnlinesSnoc(ls: seq<string>, l: string)
    ensures Unlines(ls + [l]) == Unlines(ls) + l + "\n"
  {
    assert (ls + [l])[..|ls|] == ls;
  }

  lemma RenderedSnoc(es: seq<Entry>, e: Entry)
    ensures Rendered(es + [e]) == Rendered(es) + [Render(e)]
  {
  }

  /** Writing one more filtered entry extends a section of the file by its line. */
  lemma SectionStep(head: seq<string>, before: seq<Entry>, after: seq<Entry>, e: Entry, keep: bool)
    requires after == before + (if keep then [e] else [])
    ensures keep ==> Unlines(head + Rendered(after)) == Unlines(head + Rendered(before)) + Render(e) + "\n"
    ensures !keep ==> Unlines(head + Rendered(after)) == Unlines(head + Rendered(before))
  {
    if keep {
      RenderedSnoc(before, e);
      Associative(head, Rendered(before), [Render(e)]);
      UnlinesSnoc(head + Rendered(before), Render(e));
    } else {
      assert after == before;
    }
  }

  lemma PairsSnoc(es: seq<Entry>, i: nat)
    requires i < |es|
    ensures Pairs(es[..i + 1]) == Pairs(es[..i]) + (if es[i].Pair? then [es[i]] else [])
    ensures Flags(es[..i + 1]) == Flags(es[..i]) + (if es[i].Flag? then [es[i]] else [])
  {
    assert es[..i + 1][..i] == es[..i];
  }

  /** The configuration file on disk; `None` while it does not exist. */
  class ConfFile {
    var contents: Option<string>

    constructor (contents: Option<string>)
      ensures this.contents == contents
    {
      this.contents := contents;
    }

    /** `file_writeln`: appends `data` and a newline to the open file. */
    method Writeln(data: string)
      requires contents.Some?
      modifies this
      ensures contents == Some(old(contents).value + data + "\n")
    {
      contents := Some(contents.value + data + "\n");
    }
  }

  /** `Configuration`: the file it belongs to, the rules in file order and whether they must be written back. */
  class Configuration {
    const file: ConfFile
    var dirty: bool
    var entries: seq<Entry>

    /**
      `Configuration::new` followed by `init`: the store keeps `disk` as its file
      and only reads it here; an existing file is loaded (even an
      empty one, which leaves no entries and nothing dirty); a missing file gives
      the default rules, marked dirty.
     */
    constructor (disk: ConfFile)
      ensures file == disk && disk.contents == old(disk.contents)
      ensures disk.contents.Some? ==> entries == LoadEntries(disk.contents.value) && !dirty
      ensures disk.contents.None? ==> entries == DefaultEntries() && dirty
    {
      file := disk;
      dirty := false;
      entries := [];
      new;
      if disk.contents.Some? {
        Load(disk.contents.value);
      } else {
        UseDefaultConfiguration();
      }
    }

    /** `add_entry`: parses `line` and appends it; `dirty` is left as it was. */
    method AddEntry(line: string)
      modifies this
      ensures entries == old(entries) + [ParseEntry(line)]
      ensures dirty == old(dirty)
    {
      entries := entries + [ParseEntry(line)];
    }

    /** `get_value`: the early-return scan over the entries. */
    method GetValue(key: string, re: Regex.Engine) returns (r: Result<Option<string>, Regex.Error>)
      ensures r == FindValue(entries, key, re)
    {
      var i := 0;
      while i < |entries|
        invariant 0 <= i <= |entries|
        invariant FindValue(entries[i..], key, re) == FindValue(entries, key, re)
      {
        assert entries[i..][1..] == entries[i + 1..];
        if entries[i].Pair? {
          var p := entries[i].pattern;
          if !re.compiles(p) {
            return Err(Regex.Invalid(p));
          }
          if re.isMatch(p, key) {
            return Ok(Some(entries[i].value));
          }
        }
        i := i + 1;
      }
      return Ok(None);
    }

    /** `use_default_configuration`: appends the three default rules and marks the store dirty. */
    method UseDefaultConfiguration()
      modifies this
      ensures entries == old(entries) + DefaultEntries()
      ensures dirty
    {
      AddEntry(JsRule);
      AddEntry(JavaRule);
      AddEntry(NoPermissions);
      DefaultRules();
      dirty := true;
    }

    /**
      `load`: reads the file text chunk by chunk as `read_line` returns it, in a
      reused line buffer, and appends the entry of every chunk that keeps one.
     */
    method Load(text: string)
      modifies this
      ensures entries == old(entries) + LoadEntries(text)
      ensures dirty == old(dirty)
    {
      var pos := 0;
      while pos < |text|
        invariant 0 <= pos <= |text|
        invariant dirty == old(dirty)
        invariant entries + LoadFrom(text, pos) == old(entries) + LoadEntries(text)
      {
        var n := LineEnd(text, pos);
        var chunk := text[pos..n];   // `read_line` into the cleared buffer
        ghost var prev, later := entries, LoadFrom(text, n);
        LoadLine(chunk);
        Associative(prev, ChunkEntries(chunk), later);
        pos := n;
      }
    }

    /** One pass of `load`'s loop: pop the chunk's last character and add the line unless it is empty or a section header. */
    method LoadLine(chunk: string)
      requires chunk != []
      modifies this
      ensures entries == old(entries) + ChunkEntries(chunk)
      ensures dirty == old(dirty)
    {
      var line := chunk;
      line := line[..|line| - 1];
      if line != "" && !IsSectionHeader(line) {
        AddEntry(line);
      }
    }

    /** `sync`: truncates the store's file and writes the pairs section, then the flags section. */
    method Sync()
      modifies file
      ensures file.contents == Some(SyncText(entries))
    {
      var disk := file;
      disk.contents := Some("");
      disk.Writeln("[colours]");
      var i := 0;
      while i < |entries|
        invariant 0 <= i <= |entries|
        invariant disk.contents == Some(Unlines(["[colours]"] + Rendered(Pairs(entries[..i]))))
      {
        PairsSnoc(entries, i);
        SectionStep(["[colours]"], Pairs(entries[..i]), Pairs(entries[..i + 1]), entries[i], entries[i].Pair?);
        if entries[i].Pair? {
          disk.Writeln(Render(entries[i]));
        }
        i := i + 1;
      }
      assert entries[..i] == entries;
      ghost var head := ["[colours]"] + Rendered(Pairs(entries)) + ["\n[flags]"];
      UnlinesSnoc(["[colours]"] + Rendered(Pairs(entries)), "\n[flags]");
      disk.Writeln("\n[flags]");
      i := 0;
      assert Rendered(Flags(entries[..0])) == [];
      assert head + Rendered(Flags(entries[..0])) == head;
      while i < |entries|
        invariant 0 <= i <= |entries|
        invariant disk.contents == Some(Unlines(head + Rendered(Flags(entries[..i]))))
      {
        PairsSnoc(entries, i);
        SectionStep(head, Flags(entries[..i]), Flags(entries[..i + 1]), entries[i], entries[i].Flag?);
        if entries[i].Flag? {
          disk.Writeln(Render(entries[i]));
        }
        i := i + 1;
      }
      assert entries[..i] == entries;
    }

    /** `Drop::drop`, made explicit: the file is rewritten exactly when the store is dirty. */
    method Finalize()
      modifies file
      ensures file.contents == if dirty then Some(SyncText(entries)) else old(file.contents)
    {
      if dirty {
        Sync();
      }
    }
  }
}
