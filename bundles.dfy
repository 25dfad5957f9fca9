/**
 * An installed bundle (`TMBundle::Bundle`): a directory under the bundles directory,
 * shown to the user by a name derived from its path.
 */
module Bundles {
  import opened RubyText

  /** The file-name extension of a TextMate bundle directory. */
  const Ext: string := ".tmbundle"

  /** A bundle is the path of its directory; nothing else is stored. */
  datatype Bundle = Bundle(path: string)
  {
    /** `File.basename(path, '.tmbundle')`. */
    function Name(): string
    {
      BasenameWithout(path, Ext)
    }
  }

  /**
   * The name of the bundle at `dir/entry` is the directory entry, less one exact,
   * case-sensitive ".tmbundle" ending when something is left in front of it.
   */
  lemma NameOfEntry(dir: string, entry: string)
    requires entry != [] && '/' !in entry
    ensures Bundle(dir + "/" + entry).Name()
         == if |entry| > |Ext| && EndsWith(entry, Ext) then entry[..|entry| - |Ext|] else entry
  {
    BasenameWithoutOfJoin(dir, entry, Ext);
  }

  /** Installing `stem` as `dir/stem.tmbundle` gives back `stem` as the bundle's name. */
  lemma NameRoundTrip(dir: string, stem: string)
    requires stem != [] && '/' !in stem
    ensures Bundle(dir + "/" + (stem + Ext)).Name() == stem
  {
    var entry := stem + Ext;
    assert '/' !in Ext;
    assert '/' !in entry by {
      forall i | 0 <= i < |entry| ensures entry[i] != '/' {
        if i < |stem| { assert entry[i] == stem[i]; } else { assert entry[i] == Ext[i - |stem|]; }
      }
    }
    NameOfEntry(dir, entry);
    assert entry[|entry| - |Ext|..] == Ext;
    assert entry[..|entry| - |Ext|] == stem;
  }

  /** Other spellings of the extension stay part of the name. */
  lemma NameKeepsOtherCasing(dir: string, entry: string)
    requires entry == "Ruby.TMBundle"
    ensures Bundle(dir + "/" + entry).Name() == entry
  {
    assert |entry| == 13;
    assert '/' !in entry;
    assert entry[5] != Ext[1];
    assert !EndsWith(entry, Ext) by {
      assert entry[|entry| - |Ext|..][1] == entry[5];
    }
    NameOfEntry(dir, entry);
  }

  /**
   * A directory called just ".tmbundle" keeps its whole name. The `*` glob that lists
   * installed bundles skips names starting with '.', so only a `Bundle` built by hand
   * reaches this edge of `File.basename`.
   */
  lemma NameOfBareExt(dir: string)
    ensures Bundle(dir + "/" + Ext).Name() == Ext
  {
    NameOfEntry(dir, Ext);
  }
}
