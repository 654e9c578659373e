/** Day 7, "No Space Left On Device": rebuild a directory tree from a
    terminal transcript of `cd` and `ls`, then size its directories. */
module NoSpace {
  import opened Wrappers
  import Text

  /** A directory: named subdirectories and named file sizes. The source
      keeps both in hash maps; here they are lists of entries with
      distinct names (see `Insert`), in the order the names first appear. */
  datatype Directory = Directory(subdirectories: seq<(string, Directory)>, files: seq<(string, nat)>)

  const Empty := Directory([], [])

  const TotalSize: nat := 70000000
  const SizeRequired: nat := 30000000
  const SmallLimit: nat := 100000

  /** The names of a list of entries. */
  function Names<V>(entries: seq<(string, V)>): set<string>
  {
    if |entries| == 0 then {} else {entries[0].0} + Names(entries[1..])
  }

  predicate DistinctNames<V>(entries: seq<(string, V)>)
  {
    |entries| == 0 || (entries[0].0 !in Names(entries[1..]) && DistinctNames(entries[1..]))
  }

  /** `HashMap::get`: the value under a name. */
  function Lookup<V>(entries: seq<(string, V)>, name: string): (r: Option<V>)
    ensures r.Some? <==> name in Names(entries)
  {
    if |entries| == 0 then None
    else if entries[0].0 == name then Some(entries[0].1)
    else Lookup(entries[1..], name)
  }

  /** `HashMap::insert`: afterwards the name holds the new value and every
      other name keeps its own; a new name goes at the end. */
  function Insert<V>(entries: seq<(string, V)>, name: string, v: V): (r: seq<(string, V)>)
    ensures Names(r) == Names(entries) + {name}
    ensures DistinctNames(entries) ==> DistinctNames(r)
    ensures Lookup(r, name) == Some(v)
    ensures forall n :: n != name ==> Lookup(r, n) == Lookup(entries, n)
    ensures name !in Names(entries) ==> r == entries + [(name, v)]
  {
    if |entries| == 0 then [(name, v)]
    else if entries[0].0 == name then [(name, v)] + entries[1..]
    else
      var rest := Insert(entries[1..], name, v);
      assert ([entries[0]] + rest)[1..] == rest;
      assert name !in Names(entries) ==> [entries[0]] + rest == entries + [(name, v)] by {
        if name !in Names(entries) {
          assert [entries[0]] + (entries[1..] + [(name, v)]) == entries + [(name, v)];
        }
      }
      [entries[0]] + rest
  }

  /** The sum of a list of file sizes. */
  function FilesSize(files: seq<(string, nat)>): nat
  {
    if |files| == 0 then 0 else files[0].1 + FilesSize(files[1..])
  }

  /** `Directory::size`: its own files plus the sizes of all its
      subdirectories. */
  function Size(d: Directory): nat
    decreases d, |d.subdirectories| + 1
  {
    FilesSize(d.files) + SubSize(d, 0)
  }

  /** The sizes of the subdirectories from position `i` on. */
  function SubSize(d: Directory, i: nat): nat
    requires i <= |d.subdirectories|
    decreases d, |d.subdirectories| - i
  {
    if i == |d.subdirectories| then 0
    else
      assert d.subdirectories[i].1 < d.subdirectories[i] < d;
      Size(d.subdirectories[i].1) + SubSize(d, i + 1)
  }

  /** Each subdirectory from position `i` on is at most the rest's total. */
  lemma {:induction false} SubSizeCovers(d: Directory, i: nat, j: nat)
    requires i <= j < |d.subdirectories|
    ensures Size(d.subdirectories[j].1) <= SubSize(d, i)
    decreases j - i
  {
    if i < j {
      SubSizeCovers(d, i + 1, j);
    }
  }

  /** A directory is at least as large as any of its subdirectories. */
  lemma SubdirectoryNotLarger(d: Directory, j: nat)
    requires j < |d.subdirectories|
    ensures Size(d.subdirectories[j].1) <= Size(d)
  {
    SubSizeCovers(d, 0, j);
  }

  /** `get_all_dirs`: the directory itself, then every directory below it. */
  function AllDirs(d: Directory): (r: seq<Directory>)
    ensures |r| > 0 && r[0] == d
    decreases d, |d.subdirectories| + 1
  {
    [d] + AllDirsFrom(d, 0)
  }

  /** The directories below the subdirectories from position `i` on. */
  function AllDirsFrom(d: Directory, i: nat): seq<Directory>
    requires i <= |d.subdirectories|
    decreases d, |d.subdirectories| - i
  {
    if i == |d.subdirectories| then []
    else
      assert d.subdirectories[i].1 < d.subdirectories[i] < d;
      AllDirs(d.subdirectories[i].1) + AllDirsFrom(d, i + 1)
  }

  /** `e` is `d` or lies somewhere below it. */
  predicate Within(e: Directory, d: Directory)
    decreases d, |d.subdirectories| + 1
  {
    e == d || WithinFrom(e, d, 0)
  }

  /** `e` lies within one of the subdirectories from position `i` on. */
  predicate WithinFrom(e: Directory, d: Directory, i: nat)
    requires i <= |d.subdirectories|
    decreases d, |d.subdirectories| - i
  {
    if i == |d.subdirectories| then false
    else
      assert d.subdirectories[i].1 < d.subdirectories[i] < d;
      Within(e, d.subdirectories[i].1) || WithinFrom(e, d, i + 1)
  }

  /** `get_all_dirs` lists exactly the directory and the ones below it. */
  lemma {:induction false} AllDirsWithin(d: Directory, e: Directory)
    ensures e in AllDirs(d) <==> Within(e, d)
    decreases d, |d.subdirectories| + 1
  {
    AllDirsFromWithin(d, 0, e);
  }

  lemma {:induction false} AllDirsFromWithin(d: Directory, i: nat, e: Directory)
    requires i <= |d.subdirectories|
    ensures e in AllDirsFrom(d, i) <==> WithinFrom(e, d, i)
    decreases d, |d.subdirectories| - i
  {
    if i < |d.subdirectories| {
      var sub := d.subdirectories[i].1;
      assert sub < d.subdirectories[i] < d;
      AllDirsWithin(sub, e);
      AllDirsFromWithin(d, i + 1, e);
    }
  }

  /** Every directory within `d` is at most as large as `d`. */
  lemma {:induction false} WithinNotLarger(e: Directory, d: Directory)
    requires Within(e, d)
    ensures Size(e) <= Size(d)
    decreases d, |d.subdirectories| + 1
  {
    if e != d {
      WithinFromNotLarger(e, d, 0);
    }
  }

  lemma {:induction false} WithinFromNotLarger(e: Directory, d: Directory, i: nat)
    requires i <= |d.subdirectories| && WithinFrom(e, d, i)
    ensures Size(e) <= Size(d)
    decreases d, |d.subdirectories| - i
  {
    var sub := d.subdirectories[i].1;
    assert sub < d.subdirectories[i] < d;
    if Within(e, sub) {
      WithinNotLarger(e, sub);
      SubdirectoryNotLarger(d, i);
    } else {
      WithinFromNotLarger(e, d, i + 1);
    }
  }

  /** Part 1: the total size of the directories of at most 100000. */
  function SmallTotal(dirs: seq<Directory>): (r: nat)
    ensures r <= |dirs| * SmallLimit
  {
    if |dirs| == 0 then 0
    else (if Size(dirs[0]) <= SmallLimit then Size(dirs[0]) else 0) + SmallTotal(dirs[1..])
  }

  /** Part 2: the size of the smallest directory whose deletion frees
      enough space. The unsigned subtractions in `main` underflow (and
      panic) when the disk holds more than it can or already has enough
      free space; both give `None`. */
  function SpaceToReclaim(used: nat): Option<nat>
  {
    if used > TotalSize || TotalSize - used > SizeRequired then None
    else Some(SizeRequired - (TotalSize - used))
  }

  /** The least of the sizes at or above `need`, if any. */
  function MinAtLeast(dirs: seq<Directory>, need: nat): (r: Option<nat>)
    ensures r.Some? ==> r.value >= need && exists i :: 0 <= i < |dirs| && Size(dirs[i]) == r.value
    ensures r.Some? ==> forall i :: 0 <= i < |dirs| && Size(dirs[i]) >= need ==> r.value <= Size(dirs[i])
    ensures r.None? <==> forall i :: 0 <= i < |dirs| ==> Size(dirs[i]) < need
  {
    if |dirs| == 0 then None
    else
      var rest := MinAtLeast(dirs[1..], need);
      assert forall i :: 1 <= i < |dirs| ==> dirs[i] == dirs[1..][i - 1];
      var here := Size(dirs[0]);
      if here < need then
        rest
      else if rest.Some? && rest.value < here then
        var i :| 0 <= i < |dirs[1..]| && Size(dirs[1..][i]) == rest.value;
        assert Size(dirs[i + 1]) == rest.value;
        rest
      else
        Some(here)
  }

  /** `main`'s second answer: the root is always large enough, so once the
      subtraction succeeds the `unwrap` cannot fail. */
  function SmallestToDelete(root: Directory): (r: Option<nat>)
    ensures r.Some? <==> SpaceToReclaim(Size(root)).Some?
    ensures r.Some? ==> r.value >= SpaceToReclaim(Size(root)).value && r.value <= Size(root)
    ensures r.Some? ==> exists e :: Within(e, root) && Size(e) == r.value
    ensures r.Some? ==> forall e :: Within(e, root) && Size(e) >= SpaceToReclaim(Size(root)).value ==> r.value <= Size(e)
  {
    var need :- SpaceToReclaim(Size(root));
    var dirs := AllDirs(root);
    AllDirsWithin(root, root);
    var m := MinAtLeast(dirs, need);
    assert Size(dirs[0]) >= need;
    var i :| 0 <= i < |dirs| && Size(dirs[i]) == m.value;
    AllDirsWithin(root, dirs[i]);
    forall e | Within(e, root) && Size(e) >= need
      ensures m.value <= Size(e)
    {
      AllDirsWithin(root, e);
      var j :| 0 <= j < |dirs| && dirs[j] == e;
    }
    m
  }

  /** `size.parse::<u32>()`. */
  function ParseU32(s: string): (r: Option<nat>)
    ensures r.Some? ==> r.value < 0x1_0000_0000
  {
    var n :- Text.ParseNat(s);
    if n < 0x1_0000_0000 then Some(n) else None
  }

  /** `process_dir`: read lines into `acc` until `$ cd ..` or the end of
      the transcript, and return the directory with the lines left over.
      `$ cd name` reads a whole subdirectory first; `<size> <name>` records
      a file; `$ cd /`, `$ ls`, `dir name` and a line of one word change
      nothing. `None` stands for the source's panics: an unknown `$`
      command, `$ cd` without a name and a size that does not parse. */
  function ProcessFrom(lines: seq<string>, acc: Directory): (r: Option<(Directory, seq<string>)>)
    ensures r.Some? ==> |r.value.1| < |lines| || (|lines| == 0 && r.value.1 == [])
    decreases |lines|
  {
    if |lines| == 0 then Some((acc, []))
    else
      var words := Text.Split(lines[0], ' ');
      var rest := lines[1..];
      if words[0] == "$" then
        if |words| < 2 then None
        else if words[1] == "cd" then
          if |words| < 3 then None
          else if words[2] == "/" then ProcessFrom(rest, acc)
          else if words[2] == ".." then Some((acc, rest))
          else
            var sub :- ProcessFrom(rest, Empty);
            ProcessFrom(sub.1, acc.(subdirectories := Insert(acc.subdirectories, words[2], sub.0)))
        else if words[1] == "ls" then ProcessFrom(rest, acc)
        else None
      else if words[0] == "dir" || |words| < 2 then ProcessFrom(rest, acc)
      else
        var size :- ParseU32(words[0]);
        ProcessFrom(rest, acc.(files := Insert(acc.files, words[1], size)))
  }

  /** The tree `main` builds from the whole transcript. */
  function ProcessDir(lines: seq<string>): Option<Directory>
  {
    var r :- ProcessFrom(lines, Empty);
    Some(r.0)
  }

  /** Both answers `main` prints, or `None` where it panics. */
  function Answers(lines: seq<string>): Option<(nat, nat)>
  {
    var root :- ProcessDir(lines);
    var smallest :- SmallestToDelete(root);
    Some((SmallTotal(AllDirs(root)), smallest))
  }

  /** A transcript line of two words. */
  function Words2(a: string, b: string): string { a + " " + b }

  /** A transcript line of three words. */
  function Words3(a: string, b: string, c: string): string { a + " " + (b + " " + c) }

  const LsLine := Words2("$", "ls")
  const CdUpLine := Words3("$", "cd", "..")

  function DirLines(subs: seq<(string, Directory)>): (r: seq<string>)
    ensures |r| == |subs|
  {
    if |subs| == 0 then [] else [Words2("dir", subs[0].0)] + DirLines(subs[1..])
  }

  function FileLines(files: seq<(string, nat)>): (r: seq<string>)
    ensures |r| == |files|
  {
    if |files| == 0 then [] else [Words2(Text.NatToString(files[0].1), files[0].0)] + FileLines(files[1..])
  }

  /** A transcript that explores `d`: list it (`dir` lines, then file
      lines), then enter each subdirectory in turn, explore it and come
      back with `$ cd ..`. */
  function Render(d: Directory): seq<string>
    decreases d, |d.subdirectories| + 1
  {
    [LsLine] + DirLines(d.subdirectories) + FileLines(d.files) + RenderFrom(d, 0)
  }

  function RenderFrom(d: Directory, i: nat): seq<string>
    requires i <= |d.subdirectories|
    decreases d, |d.subdirectories| - i
  {
    if i == |d.subdirectories| then []
    else
      assert d.subdirectories[i].1 < d.subdirectories[i] < d;
      [Words3("$", "cd", d.subdirectories[i].0)] + Render(d.subdirectories[i].1) + [CdUpLine]
        + RenderFrom(d, i + 1)
  }

  /** A tree a transcript can describe: names are single words, a
      directory is not called `/` or `..`, names do not repeat and sizes
      fit in a `u32`. */
  predicate Describable(d: Directory)
    decreases d, |d.subdirectories| + 1
  {
    DistinctNames(d.subdirectories) && DistinctNames(d.files)
    && (forall i :: 0 <= i < |d.files| ==> ' ' !in d.files[i].0 && d.files[i].1 < 0x1_0000_0000)
    && DescribableFrom(d, 0)
  }

  predicate DescribableFrom(d: Directory, i: nat)
    requires i <= |d.subdirectories|
    decreases d, |d.subdirectories| - i
  {
    if i == |d.subdirectories| then true
    else
      var (name, sub) := d.subdirectories[i];
      assert sub < d.subdirectories[i] < d;
      ' ' !in name && name != "/" && name != ".." && Describable(sub) && DescribableFrom(d, i + 1)
  }

  lemma Words2Split(a: string, b: string)
    requires ' ' !in a && ' ' !in b
    ensures Text.Split(Words2(a, b), ' ') == [a, b]
  {
    Text.SplitAfterWord(a, b);
    Text.SplitWithout(b, ' ');
  }

  lemma Words3Split(a: string, b: string, c: string)
    requires ' ' !in a && ' ' !in b && ' ' !in c
    ensures Text.Split(Words3(a, b, c), ' ') == [a, b, c]
  {
    Text.SplitAfterWord(a, b + " " + c);
    Words2Split(b, c);
  }

  /** `$ ls` changes nothing. */
  lemma LsIgnored(tail: seq<string>, acc: Directory)
    ensures ProcessFrom([LsLine] + tail, acc) == ProcessFrom(tail, acc)
  {
    Words2Split("$", "ls");
    assert ([LsLine] + tail)[1..] == tail;
  }

  /** A `dir name` line changes nothing. */
  lemma DirLineIgnored(name: string, tail: seq<string>, acc: Directory)
    requires ' ' !in name
    ensures ProcessFrom([Words2("dir", name)] + tail, acc) == ProcessFrom(tail, acc)
  {
    Words2Split("dir", name);
    assert ([Words2("dir", name)] + tail)[1..] == tail;
  }

  /** A `<size> <name>` line records the file. */
  lemma FileLineRecorded(name: string, size: nat, tail: seq<string>, acc: Directory)
    requires ' ' !in name && size < 0x1_0000_0000
    ensures ProcessFrom([Words2(Text.NatToString(size), name)] + tail, acc)
      == ProcessFrom(tail, acc.(files := Insert(acc.files, name, size)))
  {
    var digits := Text.NatToString(size);
    assert ' ' !in digits && digits != "$" && digits != "dir" by {
      assert Text.IsDigit(digits[0]);
    }
    Words2Split(digits, name);
    Text.ParseNatOfNatToString(size);
    assert ([Words2(digits, name)] + tail)[1..] == tail;
  }

  /** `$ cd ..` ends the directory being read. */
  lemma CdUpEnds(tail: seq<string>, acc: Directory)
    ensures ProcessFrom([CdUpLine] + tail, acc) == Some((acc, tail))
  {
    Words3Split("$", "cd", "..");
    assert ([CdUpLine] + tail)[1..] == tail;
  }

  /** `$ cd name` reads the subdirectory from the following lines and
      records it under its name. */
  lemma CdEnters(name: string, tail: seq<string>, acc: Directory, child: Directory, after: seq<string>)
    requires ' ' !in name && name != "/" && name != ".."
    requires ProcessFrom(tail, Empty) == Some((child, after))
    ensures ProcessFrom([Words3("$", "cd", name)] + tail, acc)
      == ProcessFrom(after, acc.(subdirectories := Insert(acc.subdirectories, name, child)))
  {
    Words3Split("$", "cd", name);
    assert ([Words3("$", "cd", name)] + tail)[1..] == tail;
  }

  /** `dir name` lines change nothing. */
  lemma {:induction false} DirLinesIgnored(subs: seq<(string, Directory)>, tail: seq<string>, acc: Directory)
    requires forall i :: 0 <= i < |subs| ==> ' ' !in subs[i].0
    ensures ProcessFrom(DirLines(subs) + tail, acc) == ProcessFrom(tail, acc)
  {
    if |subs| == 0 {
      assert DirLines(subs) + tail == tail;
    } else {
      assert DirLines(subs) + tail == [Words2("dir", subs[0].0)] + (DirLines(subs[1..]) + tail);
      DirLineIgnored(subs[0].0, DirLines(subs[1..]) + tail, acc);
      DirLinesIgnored(subs[1..], tail, acc);
    }
  }

  /** `<size> <name>` lines record their files, in order. */
  lemma {:induction false} FileLinesRecorded(files: seq<(string, nat)>, tail: seq<string>, acc: Directory)
    requires forall i :: 0 <= i < |files| ==> ' ' !in files[i].0 && files[i].1 < 0x1_0000_0000
    requires DistinctNames(acc.files + files)
    ensures ProcessFrom(FileLines(files) + tail, acc) == ProcessFrom(tail, acc.(files := acc.files + files))
  {
    if |files| == 0 {
      assert FileLines(files) + tail == tail;
      assert acc.files + files == acc.files;
    } else {
      FileLinesStep(files, tail, acc);
      DistinctAppend(acc.files, files);
      var next := acc.(files := acc.files + [files[0]]);
      assert acc.(files := Insert(acc.files, files[0].0, files[0].1)) == next;
      FileLinesRecorded(files[1..], tail, next);
    }
  }

  /** The first of several file lines. */
  lemma FileLinesStep(files: seq<(string, nat)>, tail: seq<string>, acc: Directory)
    requires |files| > 0 && ' ' !in files[0].0 && files[0].1 < 0x1_0000_0000
    ensures ProcessFrom(FileLines(files) + tail, acc)
      == ProcessFrom(FileLines(files[1..]) + tail, acc.(files := Insert(acc.files, files[0].0, files[0].1)))
  {
    var rest := FileLines(files[1..]) + tail;
    assert FileLines(files) + tail == [Words2(Text.NatToString(files[0].1), files[0].0)] + rest;
    FileLineRecorded(files[0].0, files[0].1, rest, acc);
  }

  /** With distinct names, the first appended name is new. */
  lemma {:induction false} DistinctAppend<V>(xs: seq<(string, V)>, ys: seq<(string, V)>)
    requires |ys| > 0 && DistinctNames(xs + ys)
    ensures ys[0].0 !in Names(xs)
    ensures DistinctNames((xs + [ys[0]]) + ys[1..])
    ensures (xs + [ys[0]]) + ys[1..] == xs + ys
  {
    assert (xs + [ys[0]]) + ys[1..] == xs + ys;
    if |xs| > 0 {
      assert (xs + ys)[1..] == xs[1..] + ys;
      NamesAppend(xs[1..], ys);
      DistinctAppend(xs[1..], ys);
    }
  }

  lemma {:induction false} NamesAppend<V>(xs: seq<(string, V)>, ys: seq<(string, V)>)
    ensures Names(xs + ys) == Names(xs) + Names(ys)
  {
    if |xs| == 0 {
      assert xs + ys == ys;
    } else {
      assert (xs + ys)[1..] == xs[1..] + ys;
      NamesAppend(xs[1..], ys);
    }
  }

  /** `$ cd /` changes nothing. */
  lemma CdRootIgnored(tail: seq<string>, acc: Directory)
    ensures ProcessFrom([Words3("$", "cd", "/")] + tail, acc) == ProcessFrom(tail, acc)
  {
    Words3Split("$", "cd", "/");
    assert ([Words3("$", "cd", "/")] + tail)[1..] == tail;
  }

  /** Reading a directory's transcript rebuilds the directory, then reads on. */
  lemma {:induction false} RenderRead(d: Directory, tail: seq<string>)
    requires Describable(d)
    ensures ProcessFrom(Render(d) + tail, Empty) == ProcessFrom(tail, d)
    decreases d, |d.subdirectories| + 1
  {
    var rest := RenderFrom(d, 0) + tail;
    assert Render(d) + tail == [LsLine] + (DirLines(d.subdirectories) + (FileLines(d.files) + rest));
    LsIgnored(DirLines(d.subdirectories) + (FileLines(d.files) + rest), Empty);
    DescribableNames(d, 0);
    DirLinesIgnored(d.subdirectories, FileLines(d.files) + rest, Empty);
    FilesRead(d.files, rest);
    assert d.subdirectories[..0] == [];
    RenderFromRead(d, 0, tail);
  }

  /** Starting from nothing, the file lines of a directory record exactly its files. */
  lemma FilesRead(files: seq<(string, nat)>, tail: seq<string>)
    requires forall i :: 0 <= i < |files| ==> ' ' !in files[i].0 && files[i].1 < 0x1_0000_0000
    requires DistinctNames(files)
    ensures ProcessFrom(FileLines(files) + tail, Empty) == ProcessFrom(tail, Directory([], files))
  {
    assert Empty.files + files == files;
    FileLinesRecorded(files, tail, Empty);
  }

  /** Subdirectory names in a describable tree are single words. */
  lemma {:induction false} DescribableNames(d: Directory, i: nat)
    requires i <= |d.subdirectories| && DescribableFrom(d, i)
    ensures forall j :: i <= j < |d.subdirectories| ==> ' ' !in d.subdirectories[j].0
    decreases |d.subdirectories| - i
  {
    if i < |d.subdirectories| {
      DescribableNames(d, i + 1);
    }
  }

  /** The transcripts of the subdirectories from position `i` on add them
      to a directory that already holds the ones before. */
  lemma {:induction false} RenderFromRead(d: Directory, i: nat, tail: seq<string>)
    requires i <= |d.subdirectories| && DescribableFrom(d, i) && DistinctNames(d.subdirectories)
    ensures ProcessFrom(RenderFrom(d, i) + tail, Directory(d.subdirectories[..i], d.files)) == ProcessFrom(tail, d)
    decreases d, |d.subdirectories| - i
  {
    var acc := Directory(d.subdirectories[..i], d.files);
    if i == |d.subdirectories| {
      assert RenderFrom(d, i) + tail == tail;
      assert acc == d;
    } else {
      SubdirectoryStep(d, i, tail);
      PrefixInsert(d.subdirectories, i);
      RenderFromRead(d, i + 1, tail);
    }
  }

  /** The transcript of one subdirectory: `$ cd name`, its own transcript
      and `$ cd ..`. */
  lemma {:induction false} SubdirectoryStep(d: Directory, i: nat, tail: seq<string>)
    requires i < |d.subdirectories| && DescribableFrom(d, i)
    ensures var (name, sub) := d.subdirectories[i];
      var acc := Directory(d.subdirectories[..i], d.files);
      ProcessFrom(RenderFrom(d, i) + tail, acc)
        == ProcessFrom(RenderFrom(d, i + 1) + tail, acc.(subdirectories := Insert(acc.subdirectories, name, sub)))
    decreases d, |d.subdirectories| - i - 1
  {
    var acc := Directory(d.subdirectories[..i], d.files);
    var name, sub := d.subdirectories[i].0, d.subdirectories[i].1;
    assert sub < d.subdirectories[i] < d;
    var after := RenderFrom(d, i + 1) + tail;
    assert RenderFrom(d, i) + tail == [Words3("$", "cd", name)] + (Render(sub) + ([CdUpLine] + after));
    RenderRead(sub, [CdUpLine] + after);
    CdUpEnds(after, sub);
    CdEnters(name, Render(sub) + ([CdUpLine] + after), acc, sub, after);
  }

  /** Inserting the next entry of a list with distinct names extends the prefix before it. */
  lemma PrefixInsert<V>(xs: seq<(string, V)>, i: nat)
    requires i < |xs| && DistinctNames(xs)
    ensures Insert(xs[..i], xs[i].0, xs[i].1) == xs[..i + 1]
  {
    assert xs[..i] + xs[i..] == xs;
    DistinctAppend(xs[..i], xs[i..]);
    assert xs[..i] + [xs[i]] == xs[..i + 1];
  }

  /** `process_dir` on the transcript of a session that starts at `/` and
      explores the whole tree rebuilds the tree. */
  lemma TranscriptRoundTrip(d: Directory)
    requires Describable(d)
    ensures ProcessDir([Words3("$", "cd", "/")] + Render(d)) == Some(d)
  {
    CdRootIgnored(Render(d), Empty);
    assert Render(d) + [] == Render(d);
    RenderRead(d, []);
  }

  /** Inside a larger transcript, a subdirectory's transcript followed by
      `$ cd ..` gives back the subdirectory and the lines after it. */
  lemma NestedRoundTrip(d: Directory, rest: seq<string>)
    requires Describable(d)
    ensures ProcessFrom(Render(d) + ([CdUpLine] + rest), Empty) == Some((d, rest))
  {
    RenderRead(d, [CdUpLine] + rest);
    CdUpEnds(rest, d);
  }
}
