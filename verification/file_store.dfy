/** The `uploads` directory behind the upload, list and delete routes of app.py, as a
    map from file name to the stored bytes. The directory may not exist yet: the upload
    route creates it, and the list route answers an empty list without it. */
module FileStore {

  /** A stored file: its bytes and its modification time (a parameter of the save). */
  datatype StoredFile = StoredFile(bytes: seq<bv8>, modified: int)

  /** The uploads directory. */
  datatype UploadDir = Missing | Present(files: map<string, StoredFile>)

  /** The files of the directory; none when it does not exist. */
  function Files(dir: UploadDir): map<string, StoredFile> {
    if dir.Present? then dir.files else map[]
  }

  /** The upload route's save: create the directory if needed and write the file,
      replacing any file of the same name. */
  function Save(dir: UploadDir, name: string, bytes: seq<bv8>, time: int): (saved: UploadDir)
    ensures saved.Present?
    ensures name in saved.files && saved.files[name] == StoredFile(bytes, time)
    ensures forall other :: other != name ==> (other in saved.files <==> other in Files(dir))
    ensures forall other :: other != name && other in Files(dir) ==> saved.files[other] == Files(dir)[other]
  {
    Present(Files(dir)[name := StoredFile(bytes, time)])
  }

  /** Last write wins: saving twice under one name keeps only the second save. */
  lemma LastWriteWins(dir: UploadDir, name: string, first: seq<bv8>, t1: int, second: seq<bv8>, t2: int)
    ensures Save(Save(dir, name, first, t1), name, second, t2) == Save(dir, name, second, t2)
  {
    var a := Save(Save(dir, name, first, t1), name, second, t2);
    var b := Save(dir, name, second, t2);
    assert a.files.Keys == b.files.Keys;
  }

  /** Saves under different names do not interfere. */
  lemma SavesCommute(dir: UploadDir, n1: string, b1: seq<bv8>, t1: int, n2: string, b2: seq<bv8>, t2: int)
    requires n1 != n2
    ensures Save(Save(dir, n1, b1, t1), n2, b2, t2) == Save(Save(dir, n2, b2, t2), n1, b1, t1)
  {
    var a := Save(Save(dir, n1, b1, t1), n2, b2, t2);
    var b := Save(Save(dir, n2, b2, t2), n1, b1, t1);
    assert a.files.Keys == b.files.Keys;
  }

  /** One entry of the list route's answer. */
  datatype FileInfo = FileInfo(name: string, size: nat, modified: int)

  /** The list route: an empty list when the directory does not exist, otherwise one
      entry per stored file, in no particular order, with its size in bytes and its
      modification time. */
  method List(dir: UploadDir) returns (infos: seq<FileInfo>)
    ensures dir.Missing? ==> infos == []
    ensures |infos| == |Files(dir)|
    ensures forall i :: 0 <= i < |infos| ==> infos[i].name in Files(dir)
    ensures forall i :: 0 <= i < |infos| ==>
      infos[i].size == |Files(dir)[infos[i].name].bytes| && infos[i].modified == Files(dir)[infos[i].name].modified
    ensures forall i, j :: 0 <= i < j < |infos| ==> infos[i].name != infos[j].name
    ensures forall name :: name in Files(dir) ==> exists i :: 0 <= i < |infos| && infos[i].name == name
  {
    infos := [];
    if dir.Missing? {
      return;
    }
    var files := dir.files;
    var remaining := files.Keys;
    while remaining != {}
      invariant remaining <= files.Keys
      invariant |infos| + |remaining| == |files.Keys|
      invariant forall i :: 0 <= i < |infos| ==> infos[i].name in files && infos[i].name !in remaining
      invariant forall i :: 0 <= i < |infos| ==>
        infos[i].size == |files[infos[i].name].bytes| && infos[i].modified == files[infos[i].name].modified
      invariant forall i, j :: 0 <= i < j < |infos| ==> infos[i].name != infos[j].name
      invariant forall name :: name in files && name !in remaining ==> exists i :: 0 <= i < |infos| && infos[i].name == name
      decreases |remaining|
    {
      var name :| name in remaining;
      var file := files[name];
      var before := infos;
      infos := infos + [FileInfo(name, |file.bytes|, file.modified)];
      forall n | n in files && n !in remaining - {name}
        ensures exists i :: 0 <= i < |infos| && infos[i].name == n
      {
        if n == name {
          assert infos[|infos| - 1].name == n;
        } else {
          var i :| 0 <= i < |before| && before[i].name == n;
          assert infos[i].name == n;
        }
      }
      remaining := remaining - {name};
    }
    assert |files.Keys| == |files|;
  }

  /** The delete route's answer. */
  datatype DeleteResponse = DeleteResponse(success: bool, message: string)

  /** The delete route: remove the file and say so when it exists; otherwise answer
      "File not found" and leave the directory as it is. */
  function Delete(dir: UploadDir, name: string): (r: (UploadDir, DeleteResponse))
    ensures r.1.success <==> name in Files(dir)
    ensures r.1.success ==> r.1.message == "File " + name + " deleted"
    ensures !r.1.success ==> r.0 == dir && r.1.message == "File not found"
    ensures name !in Files(r.0)
    ensures forall other :: other != name ==> (other in Files(r.0) <==> other in Files(dir))
    ensures forall other :: other != name && other in Files(dir) ==> Files(r.0)[other] == Files(dir)[other]
  {
    if name in Files(dir) then
      (Present(dir.files - {name}), DeleteResponse(true, "File " + name + " deleted"))
    else
      (dir, DeleteResponse(false, "File not found"))
  }

  /** Deleting twice: the second delete finds nothing and changes nothing. */
  lemma DeleteTwice(dir: UploadDir, name: string)
    ensures var once := Delete(dir, name).0;
      Delete(once, name) == (once, DeleteResponse(false, "File not found"))
  {
  }

  /** A saved file can be deleted, and deleting it restores every other file. */
  lemma SaveThenDelete(dir: UploadDir, name: string, bytes: seq<bv8>, time: int)
    ensures Delete(Save(dir, name, bytes, time), name).1.success
    ensures Files(Delete(Save(dir, name, bytes, time), name).0) == Files(dir) - {name}
  {
  }
}
