/** flipper/storage/storage_glue.c: the table of open files of one storage, a list
    that is searched from the front. */
module StorageGlue {

  /** `file` is the client's handle, `id` the number it was given when opened. */
  datatype Entry = Entry(file: nat, id: nat, path: string)

  ghost predicate HasPath(files: seq<Entry>, path: string) {
    exists i :: 0 <= i < |files| && files[i].path == path
  }

  ghost predicate HasId(files: seq<Entry>, id: nat) {
    exists i :: 0 <= i < |files| && files[i].id == id
  }

  /** No path is listed twice, and no id. */
  ghost predicate Distinct(files: seq<Entry>) {
    forall i, j | 0 <= i < j < |files| :: files[i].path != files[j].path && files[i].id != files[j].id
  }

  function Without<T>(s: seq<T>, i: nat): seq<T>
    requires i < |s|
  {
    s[..i] + s[i + 1..]
  }

  lemma PushKeepsDistinct(files: seq<Entry>, e: Entry)
    requires Distinct(files) && !HasPath(files, e.path) && !HasId(files, e.id)
    ensures Distinct(files + [e]) && HasId(files + [e], e.id)
    ensures forall p :: HasPath(files + [e], p) <==> HasPath(files, p) || p == e.path
  {
    var fs := files + [e];
    assert fs[|files|] == e;
    forall p ensures HasPath(fs, p) <==> HasPath(files, p) || p == e.path {
      if HasPath(files, p) {
        var i :| 0 <= i < |files| && files[i].path == p;
        assert fs[i].path == p;
      }
    }
  }

  lemma RemoveKeepsDistinct(files: seq<Entry>, i: nat)
    requires Distinct(files) && i < |files|
    ensures Distinct(Without(files, i))
    ensures forall p :: HasPath(Without(files, i), p) <==> HasPath(files, p) && p != files[i].path
  {
    var fs := Without(files, i);
    assert forall k | 0 <= k < |fs| :: fs[k] == if k < i then files[k] else files[k + 1];
    forall p ensures HasPath(fs, p) <==> HasPath(files, p) && p != files[i].path {
      if HasPath(files, p) && p != files[i].path {
        var k :| 0 <= k < |files| && files[k].path == p;
        assert fs[if k < i then k else k - 1].path == p;
      }
    }
  }

  class FileTable {
    var files: seq<Entry>

    constructor ()
      ensures files == []
    {
      files := [];
    }

    method PathAlreadyOpen(path: string) returns (open: bool)
      ensures open <==> HasPath(files, path)
    {
      open := false;
      for i := 0 to |files|
        invariant !open && forall k | 0 <= k < i :: files[k].path != path
      {
        if files[i].path == path {
          open := true;
          break;
        }
      }
    }

    method HasFile(id: nat) returns (found: bool)
      ensures found <==> HasId(files, id)
    {
      found := false;
      for i := 0 to |files|
        invariant !found && forall k | 0 <= k < i :: files[k].id != id
      {
        if files[i].id == id {
          found := true;
          break;
        }
      }
    }

    method Push(file: nat, id: nat, path: string)
      modifies this
      ensures files == old(files) + [Entry(file, id, path)]
    {
      files := files + [Entry(file, id, path)];
    }

    /** Removes the first entry with the id. */
    method Pop(id: nat) returns (result: bool, ghost at: nat)
      modifies this
      ensures result <==> old(HasId(files, id))
      ensures result ==> at < |old(files)| && old(files)[at].id == id && files == Without(old(files), at)
      ensures !result ==> files == old(files)
    {
      result, at := false, 0;
      for i := 0 to |files|
        invariant files == old(files) && !result && forall k | 0 <= k < i :: files[k].id != id
      {
        if files[i].id == id {
          result, at := true, i;
          files := Without(files, i);
          break;
        }
      }
    }
  }
}
