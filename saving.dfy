/**
 * What the panel writes when the batch is over: a batch of one class
 * becomes one file, the UTF-8 bytes of its source written over the start
 * of whatever the file held; any other batch
 * becomes an archive with one entry per recorded class, named after the
 * class with `.java` appended and holding the UTF-8 bytes of its source.
 */
module Saving {
  import opened Wrappers
  import opened Utf8

  datatype Entry = Entry(name: string, data: seq<byte>)

  datatype Output = SingleFile(bytes: seq<byte>) | Archive(entries: seq<Entry>)

  /** `iterator().next()` on the key set of an empty map. */
  datatype SaveError = NoSuchElement

  /** No file chosen, something written, or the error the write path caught. */
  datatype SaveOutcome = NotSaved | Saved(output: Output) | SaveFailed(error: SaveError)

  /** The archive entry name of a class. */
  function EntryName(key: string): (r: string)
    ensures |r| == |key| + 5 && r[..|key|] == key && r[|key|..] == ".java"
  {
    key + ".java"
  }

  /** Different classes get different entry names, so the archive never repeats an entry. */
  lemma EntryNameInjective(a: string, b: string)
    requires EntryName(a) == EntryName(b)
    ensures a == b
  {
    assert a == EntryName(a)[..|a|];
    assert b == EntryName(b)[..|b|];
  }

  /** The entry the archive holds for one class. */
  function EntryFor(key: string, classSources: map<string, string>): Entry
    requires key in classSources
  {
    Entry(EntryName(key), Encode(classSources[key]))
  }

  /** `keys` lists every key of the map once: one possible iteration order of a hash map. */
  ghost predicate IsListing(keys: seq<string>, classSources: map<string, string>)
  {
    && (forall i, j :: 0 <= i < j < |keys| ==> keys[i] != keys[j])
    && (forall k :: k in classSources <==> k in keys)
  }

  /** The entries of an archive, one for each listed key in order. */
  ghost predicate EntriesFor(entries: seq<Entry>, keys: seq<string>, classSources: map<string, string>)
  {
    && |entries| == |keys|
    && forall i :: 0 <= i < |keys| ==> keys[i] in classSources && entries[i] == EntryFor(keys[i], classSources)
  }

  /** Builds the archive's entries, one per listed key, in the order listed. */
  method ArchiveEntries(keys: seq<string>, classSources: map<string, string>) returns (entries: seq<Entry>)
    requires forall i :: 0 <= i < |keys| ==> keys[i] in classSources
    ensures EntriesFor(entries, keys, classSources)
  {
    entries := [];
    var i := 0;
    while i < |keys|
      invariant 0 <= i <= |keys|
      invariant EntriesFor(entries, keys[..i], classSources)
    {
      var key := keys[i];
      entries := entries + [Entry(EntryName(key), Encode(classSources[key]))];
      i := i + 1;
    }
    assert keys[..i] == keys;
  }

  /**
   * Whatever the iteration order, the archive has exactly one entry per
   * class, each named after its class, with pairwise distinct names, and
   * each entry's bytes decode back to that class's source.
   */
  lemma ArchiveShape(entries: seq<Entry>, keys: seq<string>, classSources: map<string, string>)
    requires IsListing(keys, classSources) && EntriesFor(entries, keys, classSources)
    ensures forall k :: k in classSources <==> exists i :: 0 <= i < |entries| && entries[i].name == EntryName(k)
    ensures forall i, j :: 0 <= i < j < |entries| ==> entries[i].name != entries[j].name
    ensures forall i :: 0 <= i < |entries| ==> Decode(entries[i].data) == Some(classSources[keys[i]])
  {
    forall k | k in classSources
      ensures exists i :: 0 <= i < |entries| && entries[i].name == EntryName(k)
    {
      var i :| 0 <= i < |keys| && keys[i] == k;
      assert entries[i].name == EntryName(k);
    }
    forall k | exists i :: 0 <= i < |entries| && entries[i].name == EntryName(k)
      ensures k in classSources
    {
      var i :| 0 <= i < |entries| && entries[i].name == EntryName(k);
      EntryNameInjective(keys[i], k);
    }
    forall i, j | 0 <= i < j < |entries|
      ensures entries[i].name != entries[j].name
    {
      if entries[i].name == entries[j].name {
        EntryNameInjective(keys[i], keys[j]);
      }
    }
    forall i | 0 <= i < |entries|
      ensures Decode(entries[i].data) == Some(classSources[keys[i]])
    {
      DecodeEncode(classSources[keys[i]]);
    }
  }

  // ---------------------------------------------------------------------
  // Writing a single file
  // ---------------------------------------------------------------------

  /**
   * The file after `Files.write(path, data, StandardOpenOption.CREATE)` over
   * a file that held `existing` (empty when there was none): the bytes are
   * written from the start, but without `TRUNCATE_EXISTING` an older, longer
   * file keeps its tail.
   */
  function WrittenWithCreate(existing: seq<byte>, data: seq<byte>): (r: seq<byte>)
    ensures |r| == if |existing| > |data| then |existing| else |data|
    ensures r[..|data|] == data
    ensures |existing| > |data| ==> r[|data|..] == existing[|data|..]
  {
    if |existing| > |data| then data + existing[|data|..] else data
  }

  /** The file after a write that truncates: exactly the written bytes. */
  function WrittenTruncating(existing: seq<byte>, data: seq<byte>): (r: seq<byte>)
    ensures r == data
  {
    data
  }

  /** Saving a one-class batch over a longer file leaves the old tail after the new source. */
  lemma CreateKeepsStaleTail()
    ensures Encode("x") == [120]
    ensures WrittenWithCreate([65, 66, 67], Encode("x")) == [120, 66, 67]
    ensures Decode(WrittenWithCreate([65, 66, 67], Encode("x"))) == Some("xBC")
  {
    var bytes: seq<byte> := [120, 66, 67];
    assert Encode("x") == [120];
    assert bytes == Encode("xBC") by {
      assert "xBC"[1..] == "BC" && "BC"[1..] == "C" && "C"[1..] == [];
    }
    DecodeEncode("xBC");
  }

  /** A `CREATE`-only write reads back as the source when the old file was no longer than the new bytes. */
  lemma CreateReadsBackWhenNotLonger(existing: seq<byte>, source: string)
    requires |existing| <= |Encode(source)|
    ensures Decode(WrittenWithCreate(existing, Encode(source))) == Some(source)
  {
    DecodeEncode(source);
  }

  /** With truncation the file holds exactly the source's UTF-8 bytes, whatever was there before. */
  lemma TruncatingWriteReadsBack(existing: seq<byte>, source: string)
    ensures Decode(WrittenTruncating(existing, Encode(source))) == Some(source)
  {
    DecodeEncode(source);
  }
}
