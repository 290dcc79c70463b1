/** Folder names and the folder listing (`create_folder` and `list_folders`
    in backend/main.py). The data directory is a list of its entries, in
    whatever order the filesystem yields them. */
module Folders {
  import opened Results
  import opened PyStr

  /** An entry of the data directory: its name, whether it is a directory,
      and how many `*.md` files it holds. */
  datatype DirEntry = DirEntry(name: string, isDir: bool, mdCount: nat)

  datatype FolderInfo = FolderInfo(name: string, count: nat, description: string)

  /** `create_folder` refuses a name already taken (HTTP 400). */
  datatype FolderError = AlreadyExists

  /** The directory after a successful creation, and the reported folder. */
  datatype Created = Created(info: FolderInfo, dir: seq<DirEntry>)

  /** Folder characters that name the same folder after normalisation. */
  function FoldChar(c: char): char {
    if c == ' ' then '-' else LowerChar(c)
  }

  /** `name.lower().replace(" ", "-")`. */
  function Normalize(name: string): (r: string)
    ensures |r| == |name|
    ensures forall i :: 0 <= i < |r| ==> r[i] == FoldChar(name[i])
  {
    ReplaceChar(LowerAscii(name), ' ', '-')
  }

  /** A normalised name has no space and no upper-case ASCII letter, and
      only spaces become hyphens: runs of spaces are not collapsed. */
  lemma NormalizedShape(name: string)
    ensures ' ' !in Normalize(name)
    ensures forall i :: 0 <= i < |name| ==> !('A' <= Normalize(name)[i] <= 'Z')
    ensures forall i :: 0 <= i < |name| ==> (Normalize(name)[i] == '-' <==> name[i] == ' ' || name[i] == '-')
  {
  }

  /** Normalising twice is normalising once. */
  lemma NormalizeIdempotent(name: string)
    ensures Normalize(Normalize(name)) == Normalize(name)
  {
  }

  /** Two names denote the same folder exactly when they agree character by
      character up to case and space/hyphen. */
  lemma SameFolderName(a: string, b: string)
    ensures Normalize(a) == Normalize(b) <==>
            |a| == |b| && forall i :: 0 <= i < |a| ==> FoldChar(a[i]) == FoldChar(b[i])
  {
    if Normalize(a) == Normalize(b) {
      assert forall i :: 0 <= i < |a| ==> Normalize(a)[i] == Normalize(b)[i];
    }
  }

  function Names(dir: seq<DirEntry>): (r: seq<string>)
    ensures |r| == |dir| && forall i :: 0 <= i < |dir| ==> r[i] == dir[i].name
  {
    seq(|dir|, i requires 0 <= i < |dir| => dir[i].name)
  }

  /** `(data_dir / name).exists()`: an entry of that name, or a name that
      resolves to an existing directory (the data directory or its parent). */
  predicate PathExists(dir: seq<DirEntry>, name: string) {
    name == "" || name == "." || name == ".." || name in Names(dir)
  }

  /** `create_folder(name, description)`. */
  function CreateFolder(dir: seq<DirEntry>, name: string, description: string): (r: Result<Created, FolderError>)
    ensures r.Failure? <==> PathExists(dir, Normalize(name))
    ensures r.Success? ==> r.value.info == FolderInfo(Normalize(name), 0, description)
    ensures r.Success? ==> r.value.dir == dir + [DirEntry(Normalize(name), true, 0)]
  {
    var folder := Normalize(name);
    if PathExists(dir, folder) then Failure(AlreadyExists)
    else Success(Created(FolderInfo(folder, 0, description), dir + [DirEntry(folder, true, 0)]))
  }

  /** A name that normalises like one just created is refused, and so is the
      same name again. */
  lemma CreateTwiceRejected(dir: seq<DirEntry>, name: string, again: string, d1: string, d2: string)
    requires CreateFolder(dir, name, d1).Success?
    requires Normalize(again) == Normalize(name)
    ensures CreateFolder(CreateFolder(dir, name, d1).value.dir, again, d2) == Failure(AlreadyExists)
  {
    var dir' := CreateFolder(dir, name, d1).value.dir;
    assert Names(dir')[|dir|] == Normalize(name);
  }

  /** Creation adds exactly one entry and leaves the others as they were. */
  lemma CreateAddsOne(dir: seq<DirEntry>, name: string, d: string)
    requires CreateFolder(dir, name, d).Success?
    ensures var dir' := CreateFolder(dir, name, d).value.dir;
            |dir'| == |dir| + 1 && dir'[..|dir|] == dir && Normalize(name) !in Names(dir)
  {
  }

  /** `not item.name.startswith(".")`. */
  predicate Hidden(name: string) {
    |name| > 0 && name[0] == '.'
  }

  /** The folders `list_folders` reports, in directory order. */
  function VisibleFolders(dir: seq<DirEntry>): (r: seq<FolderInfo>)
    ensures forall f :: f in r <==>
              exists e :: e in dir && e.isDir && !Hidden(e.name) && f == FolderInfo(e.name, e.mdCount, "")
    ensures |r| <= |dir|
  {
    if |dir| == 0 then []
    else
      var rest := VisibleFolders(dir[1..]);
      assert forall e :: e in dir[1..] ==> e in dir;
      assert forall e :: e in dir ==> e == dir[0] || e in dir[1..];
      var e := dir[0];
      if e.isDir && !Hidden(e.name) then [FolderInfo(e.name, e.mdCount, "")] + rest else rest
  }

  /** The sort key `(name != "inbox", name)`: `inbox` first, then code-point order. */
  predicate Precedes(a: string, b: string) {
    a == "inbox" || (b != "inbox" && LexLe(a, b))
  }

  lemma PrecedesTotal(a: string, b: string)
    ensures Precedes(a, b) || Precedes(b, a)
  {
    LexLeTotal(a, b);
  }

  lemma PrecedesTransitive(a: string, b: string, c: string)
    requires Precedes(a, b) && Precedes(b, c)
    ensures Precedes(a, c)
  {
    if a != "inbox" {
      LexLeTransitive(a, b, c);
    }
  }

  predicate SortedByName(s: seq<FolderInfo>) {
    forall i, j :: 0 <= i < j < |s| ==> Precedes(s[i].name, s[j].name)
  }

  /** An element preceding every element of a sorted list can lead it. */
  lemma SortedCons(x: FolderInfo, s: seq<FolderInfo>)
    requires SortedByName(s)
    requires forall y :: y in s ==> Precedes(x.name, y.name)
    ensures SortedByName([x] + s)
  {
    forall i, j | 0 <= i < j < |[x] + s| ensures Precedes(([x] + s)[i].name, ([x] + s)[j].name) {
      if i == 0 {
        assert ([x] + s)[j] == s[j - 1];
      }
    }
  }

  /** What precedes the head of a sorted list precedes all of it. */
  lemma PrecedesHead(x: FolderInfo, s: seq<FolderInfo>)
    requires SortedByName(s) && |s| > 0 && Precedes(x.name, s[0].name)
    ensures forall y :: y in s ==> Precedes(x.name, y.name)
  {
    forall y | y in s ensures Precedes(x.name, y.name) {
      var j :| 0 <= j < |s| && s[j] == y;
      if j > 0 { PrecedesTransitive(x.name, s[0].name, s[j].name); }
    }
  }

  /** The head of a sorted list precedes its tail. */
  lemma HeadPrecedesTail(s: seq<FolderInfo>)
    requires SortedByName(s) && |s| > 0
    ensures forall y :: y in s[1..] ==> Precedes(s[0].name, y.name)
  {
    forall y | y in s[1..] ensures Precedes(s[0].name, y.name) {
      var j :| 0 <= j < |s[1..]| && s[1..][j] == y;
      assert s[j + 1] == y;
    }
  }

  /** The head of a sorted list precedes the tail with one more element
      that it precedes as well. */
  lemma PrecedesGrown(h: FolderInfo, x: FolderInfo, tail: seq<FolderInfo>, r: seq<FolderInfo>)
    requires forall y :: y in tail ==> Precedes(h.name, y.name)
    requires Precedes(h.name, x.name)
    requires multiset(r) == multiset(tail) + multiset{x}
    ensures forall y :: y in r ==> Precedes(h.name, y.name)
  {
    forall y | y in r ensures Precedes(h.name, y.name) {
      assert y in multiset(r);
      assert y in multiset(tail) || y == x;
    }
  }

  /** Puts `x` in its place in a sorted list. */
  function InsertByName(x: FolderInfo, s: seq<FolderInfo>): (r: seq<FolderInfo>)
    requires SortedByName(s)
    ensures SortedByName(r)
    ensures multiset(r) == multiset(s) + multiset{x}
  {
    if |s| == 0 then [x]
    else if Precedes(x.name, s[0].name) then
      PrecedesHead(x, s);
      SortedCons(x, s);
      [x] + s
    else
      PrecedesTotal(x.name, s[0].name);
      var rest := InsertByName(x, s[1..]);
      assert s == [s[0]] + s[1..];
      HeadPrecedesTail(s);
      PrecedesGrown(s[0], x, s[1..], rest);
      SortedCons(s[0], rest);
      [s[0]] + rest
  }

  /** Python's `sort` with the listing key. */
  function SortByName(s: seq<FolderInfo>): (r: seq<FolderInfo>)
    ensures SortedByName(r)
    ensures multiset(r) == multiset(s)
  {
    if |s| == 0 then []
    else
      assert s == [s[0]] + s[1..];
      InsertByName(s[0], SortByName(s[1..]))
  }

  /** `list_folders()`: the visible directories, `inbox` first, the rest in
      ascending order, every description empty. */
  function ListFolders(dir: seq<DirEntry>): (r: seq<FolderInfo>)
    ensures multiset(r) == multiset(VisibleFolders(dir))
    ensures forall f :: f in r <==>
              exists e :: e in dir && e.isDir && !Hidden(e.name) && f == FolderInfo(e.name, e.mdCount, "")
    ensures (exists i :: 0 <= i < |r| && r[i].name == "inbox") ==> r[0].name == "inbox"
    ensures forall i, j :: 0 <= i < j < |r| && r[i].name != "inbox" ==> LexLe(r[i].name, r[j].name)
  {
    var r := SortByName(VisibleFolders(dir));
    assert forall f :: f in r <==> f in VisibleFolders(dir) by {
      forall f ensures f in r <==> f in VisibleFolders(dir) {
        assert f in r <==> f in multiset(r);
      }
    }
    assert forall i :: 0 <= i < |r| ==> Precedes(r[0].name, r[i].name) by {
      forall i | 0 <= i < |r| ensures Precedes(r[0].name, r[i].name) {
        if i > 0 { } else { LexLeTotal(r[0].name, r[0].name); }
      }
    }
    r
  }

  /** A created folder is listed, with count 0, unless its name is hidden. */
  lemma CreatedFolderListed(dir: seq<DirEntry>, name: string, d: string)
    requires CreateFolder(dir, name, d).Success?
    ensures var listed := ListFolders(CreateFolder(dir, name, d).value.dir);
            FolderInfo(Normalize(name), 0, "") in listed <==> !Hidden(Normalize(name))
  {
    var dir' := CreateFolder(dir, name, d).value.dir;
    var e := DirEntry(Normalize(name), true, 0);
    assert e in dir';
    if FolderInfo(Normalize(name), 0, "") in ListFolders(dir') {
      var e' :| e' in dir' && e'.isDir && !Hidden(e'.name) && FolderInfo(Normalize(name), 0, "") == FolderInfo(e'.name, e'.mdCount, "");
    }
  }

  /** The documented example: "My Folder" and "my folder" name the same folder,
      and runs of spaces are kept, one hyphen per space. */
  lemma NormalizeExamples()
    ensures Normalize("My Folder") == "my-folder" == Normalize("my folder")
    ensures Normalize("a  b") == "a--b"
  {
  }
}
