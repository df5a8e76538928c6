/** `FileSet` (internal/generator/fileset.go): the files entered so far, as a
    set for finding recursion and as a list in insertion order. */
module FileSets {
  import opened Wrappers
  import opened Effects

  /** `s` backwards. */
  function Reversed<T>(s: seq<T>): (r: seq<T>)
    ensures |r| == |s|
  {
    if s == [] then [] else Reversed(s[1..]) + [s[0]]
  }

  /** Element `i` of the reversal is element `|s| - 1 - i` of `s`. */
  lemma {:induction false} ReversedAt<T>(s: seq<T>)
    ensures forall i :: 0 <= i < |s| ==> Reversed(s)[i] == s[|s| - 1 - i]
  {
    if s != [] {
      ReversedAt(s[1..]);
      forall i | 0 <= i < |s|
        ensures Reversed(s)[i] == s[|s| - 1 - i]
      {
        if i < |s| - 1 {
          assert Reversed(s)[i] == Reversed(s[1..])[i];
        }
      }
    }
  }

  /** Reversing twice gives the sequence back. */
  lemma ReversedTwice<T>(s: seq<T>)
    ensures Reversed(Reversed(s)) == s
  {
    ReversedAt(s);
    ReversedAt(Reversed(s));
  }

  /** No file occurs twice. */
  predicate Distinct(files: seq<string>)
  {
    forall i, j :: 0 <= i < j < |files| ==> files[i] != files[j]
  }

  class FileSet {
    var filemap: map<string, bool>
    var files: seq<string>
    var Err: Option<Error>

    /** The list holds each file of the map once, and every entry of the map is set. */
    ghost predicate Valid()
      reads this
    {
      && Distinct(files)
      && (forall f :: f in filemap <==> f in files)
      && (forall f :: f in filemap ==> filemap[f])
    }

    /** `NewFileSet`. */
    constructor ()
      ensures Valid()
      ensures filemap == map[] && files == [] && Err == None
    {
      filemap := map[];
      files := [];
      Err := None;
    }

    /** `FileSet.Add`: a file seen before is recursion and sets `Err`; any other
        file is recorded and appended. The receiver is returned. */
    method Add(file: string) returns (r: FileSet)
      modifies this
      ensures r == this
      ensures file in old(filemap) ==>
                filemap == old(filemap) && files == old(files) && Err == Some(RecursiveFiles(file))
      ensures file !in old(filemap) ==>
                filemap == old(filemap)[file := true] && files == old(files) + [file] && Err == old(Err)
      ensures old(Err).Some? ==> Err.Some?
      ensures old(Valid()) ==> Valid()
    {
      if file in filemap {
        Err := Some(RecursiveFiles(file));
        return this;
      }
      filemap := filemap[file := true];
      files := files + [file];
      return this;
    }

    /** `ReverseFiles`: the files, last entered first. */
    method ReverseFiles() returns (res: seq<string>)
      ensures res == Reversed(files)
      ensures |res| == |files| && forall i :: 0 <= i < |res| ==> res[i] == files[|files| - 1 - i]
    {
      res := [];
      var i := |files| - 1;
      while i > -1
        invariant -1 <= i < |files|
        invariant res == Reversed(files[i + 1..])
      {
        assert files[i..][1..] == files[i + 1..];
        res := res + [files[i]];
        i := i - 1;
      }
      assert files[0..] == files;
      ReversedAt(files);
    }
  }
}
