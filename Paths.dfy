/**
 * The file names `compress` and `decompress` choose (huffman.cpp:117-133,
 * 221-225, 296-304): the last component of the input path, its extension
 * stripped, then ".huff" appended for a compressed file and "_restored" for
 * a restored one. Each char of a name stands for one byte of the
 * `std::string`, so lengths here are byte counts; a name holding characters
 * that take several bytes in UTF-8 is not modelled.
 */
module Paths {
  import opened Wrappers

  /** The characters `getFileName` splits a path on, Unix and Windows alike. */
  const Separators: set<char> := {'/', '\\'}

  /** `find_last_of`: the last position of `s` holding one of `chars`, None (`npos`) without one. */
  function FindLastOf(s: string, chars: set<char>): (r: Option<nat>)
    ensures r.Some? ==> r.value < |s| && s[r.value] in chars
    ensures r.Some? ==> forall j :: r.value < j < |s| ==> s[j] !in chars
    ensures r.None? <==> forall j :: 0 <= j < |s| ==> s[j] !in chars
  {
    if s == [] then None
    else if s[|s| - 1] in chars then Some(|s| - 1)
    else FindLastOf(s[..|s| - 1], chars)
  }

  predicate EndsWith(s: string, suffix: string)
  {
    |suffix| <= |s| && s[|s| - |suffix|..] == suffix
  }

  /**
   * `getFileName` (huffman.cpp:118-124): the longest end of `path` without a
   * separator, which is everything after the last separator, or the whole
   * path when it has none.
   */
  function GetFileName(path: string): (r: string)
    ensures |r| <= |path| && r == path[|path| - |r|..]
    ensures forall i :: 0 <= i < |r| ==> r[i] !in Separators
    ensures |r| < |path| ==> path[|path| - |r| - 1] in Separators
  {
    match FindLastOf(path, Separators)
    case None => path
    case Some(i) => path[i + 1..]
  }

  /**
   * `removeExtension` (huffman.cpp:127-133): `name` up to its last dot, or
   * the whole name when it has none.
   */
  function RemoveExtension(name: string): (r: string)
    ensures r <= name
    ensures '.' in name ==> |r| < |name| && name[|r|] == '.' && forall j :: |r| < j < |name| ==> name[j] != '.'
    ensures '.' !in name ==> r == name
  {
    match FindLastOf(name, {'.'})
    case None => name
    case Some(i) => name[..i]
  }

  /** A name without separators is its own file name. */
  lemma NoSeparatorName(name: string)
    requires forall i :: 0 <= i < |name| ==> name[i] !in Separators
    ensures GetFileName(name) == name
  {
    assert FindLastOf(name, Separators) == None;
  }

  /** Taking the file name twice changes nothing. */
  lemma GetFileNameIdempotent(path: string)
    ensures GetFileName(GetFileName(path)) == GetFileName(path)
  {
    NoSeparatorName(GetFileName(path));
  }

  /** Stripping the extension `ext` that follows the last dot gives back the stem. */
  lemma RemoveExtensionAppend(stem: string, ext: string)
    requires '.' !in ext
    ensures RemoveExtension(stem + "." + ext) == stem
  {
    var name := stem + "." + ext;
    var r := RemoveExtension(name);
    assert name[|stem|] == '.';
    forall j | |stem| < j < |name|
      ensures name[j] != '.'
    {
      assert name[j] == ext[j - |stem| - 1];
    }
    assert r == name[..|stem|] == stem;
  }

  /** ".huff" is the extension "huff" after a dot. */
  lemma HuffExtension(stem: string)
    ensures RemoveExtension(stem + ".huff") == stem
  {
    assert stem + ".huff" == stem + "." + "huff";
    RemoveExtensionAppend(stem, "huff");
  }

  /** The output name of `compress` (huffman.cpp:223-225): the file name, extension stripped, then ".huff". */
  function CompressedName(input: string): (r: string)
    ensures EndsWith(r, ".huff")
    ensures forall i :: 0 <= i < |r| ==> r[i] !in Separators
  {
    var stem := RemoveExtension(GetFileName(input));
    assert forall i :: 0 <= i < |stem| ==> stem[i] == GetFileName(input)[i];
    stem + ".huff"
  }

  /** Whatever the path, the compressed name is its own file name, and its extension strips back to the stem. */
  lemma CompressedNameStem(input: string)
    ensures GetFileName(CompressedName(input)) == CompressedName(input)
    ensures RemoveExtension(CompressedName(input)) == RemoveExtension(GetFileName(input))
  {
    var stem := RemoveExtension(GetFileName(input));
    NoSeparatorName(CompressedName(input));
    HuffExtension(stem);
  }

  /**
   * The output name of `decompress` as written (huffman.cpp:298-304): the
   * stem of the file name, with "_restored" appended when that stem is
   * longer than five characters and does not itself end in ".huff".
   */
  function RestoredNameAsWritten(input: string): (r: string)
    ensures var stem := RemoveExtension(GetFileName(input));
      r == stem + "_restored" <==> |stem| > 5 && !EndsWith(stem, ".huff")
    ensures var stem := RemoveExtension(GetFileName(input));
      r == stem || r == stem + "_restored"
  {
    var stem := RemoveExtension(GetFileName(input));
    if |stem| > 5 && stem[|stem| - 5..] != ".huff" then
      assert |stem + "_restored"| != |stem|;
      stem + "_restored"
    else stem
  }

  /**
   * The names of a plain `stem.ext` file: compressed, it is `stem.huff`;
   * restoring that, the code as written appends "_restored" by the length of
   * the stem alone ("report.huff" becomes "report_restored", "data.huff"
   * becomes "data"), while the corrected rule gives back `stem` either way.
   */
  lemma RestoredNamesOfPlainFile(stem: string, ext: string)
    requires '.' !in stem && '.' !in ext
    requires forall i :: 0 <= i < |stem| ==> stem[i] !in Separators
    requires forall i :: 0 <= i < |ext| ==> ext[i] !in Separators
    ensures CompressedName(stem + "." + ext) == stem + ".huff"
    ensures RestoredNameAsWritten(stem + ".huff") == if |stem| > 5 then stem + "_restored" else stem
    ensures RestoredName(stem + ".huff") == stem
  {
    var name := stem + "." + ext;
    assert forall i :: 0 <= i < |name| ==> name[i] !in Separators by {
      forall i | 0 <= i < |name| ensures name[i] !in Separators {
        if i > |stem| {
          assert name[i] == ext[i - |stem| - 1];
        }
      }
    }
    NoSeparatorName(name);
    RemoveExtensionAppend(stem, ext);
    CompressedNameStem(name);
    RestoredCompressedName(name);
    HuffExtension(stem);
    if |stem| >= 5 {
      assert stem[|stem| - 5..][0] == stem[|stem| - 5];
      assert ".huff"[0] == '.';
      assert !EndsWith(stem, ".huff");
    }
  }

  /**
   * The output name of `decompress` as its comment at huffman.cpp:301
   * describes it: the stem of the file name, with "_restored" appended
   * exactly when the name being decompressed does not end in ".huff".
   */
  function RestoredName(input: string): (r: string)
    ensures RemoveExtension(GetFileName(input)) <= r
    ensures r == RemoveExtension(GetFileName(input)) <==> EndsWith(GetFileName(input), ".huff")
    ensures r != RemoveExtension(GetFileName(input)) ==> r == RemoveExtension(GetFileName(input)) + "_restored"
  {
    var name := GetFileName(input);
    var stem := RemoveExtension(name);
    if EndsWith(name, ".huff") then stem
    else
      assert |stem + "_restored"| != |stem|;
      stem + "_restored"
  }

  /** Restoring a file `compress` named gives back the stem of the original file name, whatever its length. */
  lemma RestoredCompressedName(input: string)
    ensures RestoredName(CompressedName(input)) == RemoveExtension(GetFileName(input))
  {
    CompressedNameStem(input);
  }
}
