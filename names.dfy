/** Resource identifiers: name normalisation (`adaptResourceName`) and the
    extension table (`convertFileExtToResType`). */
module ResourceNames {
  import opened Wrappers

  /** The semantic resource types of `EResType`. */
  datatype ResType = TEXT | ANIMATION | MASK | CAMPAIGN | MAP | FONT | GRAPHICS | SOUND | VIDEO | OTHER

  /** The lookup key of the resource map: a normalised name and a type. */
  datatype ResourceIdentifier = ResourceIdentifier(name: string, resType: ResType)

  /** A path separator or an extension dot: the set searched by `find_last_of("/.")`. */
  predicate IsSep(c: char) {
    c == '/' || c == '.'
  }

  /** `toupper` in the C locale: ASCII lower-case letters become upper case. */
  function ToUpperChar(c: char): (u: char)
    ensures IsSep(u) <==> IsSep(c)
    ensures u == '.' <==> c == '.'
    ensures !('a' <= u <= 'z')
  {
    if 'a' <= c <= 'z' then (c as int - 32) as char else c
  }

  function ToUpper(s: string): (u: string)
    ensures |u| == |s|
    ensures forall k :: 0 <= k < |s| ==> u[k] == ToUpperChar(s[k])
  {
    seq(|s|, k requires 0 <= k < |s| => ToUpperChar(s[k]))
  }

  /** `find_last_of("/.")`: the position of the last separator or dot, if any. */
  function FindLastOfSep(s: string): (r: Option<nat>)
    ensures r.None? <==> forall k :: 0 <= k < |s| ==> !IsSep(s[k])
    ensures r.Some? ==> r.value < |s| && IsSep(s[r.value])
    ensures r.Some? ==> forall k :: r.value < k < |s| ==> !IsSep(s[k])
    decreases |s|
  {
    if s == [] then None
    else if IsSep(s[|s| - 1]) then Some(|s| - 1)
    else FindLastOfSep(s[..|s| - 1])
  }

  /** The last `/` or `.` of `s` exists and is a `.`: `s` ends in an extension. */
  ghost predicate LastSepIsDot(s: string) {
    exists k :: 0 <= k < |s| && s[k] == '.' && forall j :: k < j < |s| ==> !IsSep(s[j])
  }

  /** `adaptResourceName` as intended: upper-case the name, then split off the
      extension (its dot included) when the last `/` or `.` is a dot. */
  function AdaptResourceName(resName: string): (r: (string, string))
    ensures r.0 + r.1 == ToUpper(resName)
    ensures r.1 == [] || (r.1[0] == '.' && forall k :: 0 < k < |r.1| ==> !IsSep(r.1[k]))
  {
    var upper := ToUpper(resName);
    var dotPos := FindLastOfSep(upper);
    if dotPos.Some? && upper[dotPos.value] == '.' then
      (upper[..dotPos.value], upper[dotPos.value..])
    else
      (upper, "")
  }

  /** The extension is split off exactly when the last `/` or `.` of the
      original name is a `.`. */
  lemma AdaptResourceNameSplitsIffExtension(resName: string)
    ensures AdaptResourceName(resName).1 != [] <==> LastSepIsDot(resName)
  {
    var upper := ToUpper(resName);
    var dotPos := FindLastOfSep(upper);
    if AdaptResourceName(resName).1 != [] {
      var k := dotPos.value;
      assert resName[k] == '.';
      assert forall j :: k < j < |resName| ==> !IsSep(resName[j]) by {
        forall j | k < j < |resName| ensures !IsSep(resName[j]) {
          assert !IsSep(upper[j]);
        }
      }
    }
    if LastSepIsDot(resName) {
      var k :| 0 <= k < |resName| && resName[k] == '.' && forall j :: k < j < |resName| ==> !IsSep(resName[j]);
      assert upper[k] == '.';
      assert dotPos.Some?;
    }
  }

  /** `adaptResourceName` as written: `std::transform` writes the upper-cased
      characters through the begin iterator of an EMPTY string, whose size
      stays 0, so the name and the extension both come back empty. */
  function AdaptResourceNameAsWritten(resName: string): (r: (string, string))
    ensures r.0 == [] && r.1 == []
  {
    ("", "")
  }

  /** An adapted name starts, across both halves, with the upper-cased first
      character of the original. */
  lemma FirstCharOfAdapted(resName: string)
    requires resName != []
    ensures var r := AdaptResourceName(resName);
            (if r.0 != [] then r.0[0] else r.1[0]) == ToUpper(resName)[0]
  {
    var r := AdaptResourceName(resName);
    assert (r.0 + r.1)[0] == ToUpper(resName)[0];
  }

  /** The as-written normalisation loses every name: two different files
      adapt to the same pair, which the intended one keeps apart. */
  lemma AdaptAsWrittenMergesNames()
    ensures AdaptResourceNameAsWritten("a.def") == AdaptResourceNameAsWritten("b.bmp")
    ensures AdaptResourceName("a.def") != AdaptResourceName("b.bmp")
  {
    var u, v := ToUpper("a.def"), ToUpper("b.bmp");
    assert u[0] == ToUpperChar('a') == 'A';
    assert v[0] == ToUpperChar('b') == 'B';
    FirstCharOfAdapted("a.def");
    FirstCharOfAdapted("b.bmp");
  }

  /** The static extension map, keys exactly as written in the source: the
      text entry is keyed "TXT" without a dot. */
  const ExtTable: map<string, ResType> :=
    map["TXT" := TEXT, ".JSON" := TEXT, ".DEF" := ANIMATION, ".MSK" := MASK,
        ".MSG" := MASK, ".H3C" := CAMPAIGN, ".H3M" := MAP, ".FNT" := FONT,
        ".BMP" := GRAPHICS, ".JPG" := GRAPHICS, ".PCX" := GRAPHICS,
        ".PNG" := GRAPHICS, ".TGA" := GRAPHICS, ".WAV" := SOUND,
        ".SMK" := VIDEO, ".BIK" := VIDEO]

  function ConvertFileExtToResType(fileExt: string): ResType {
    if fileExt in ExtTable then ExtTable[fileExt] else OTHER
  }

  /** The lookup is total, returns the listed type for every listed key and
      falls back to OTHER exactly for the strings the table does not list. */
  lemma ConvertFileExtToResTypeSpec(fileExt: string)
    ensures fileExt in ExtTable ==> ConvertFileExtToResType(fileExt) == ExtTable[fileExt]
    ensures ConvertFileExtToResType(fileExt) == OTHER <==> fileExt !in ExtTable
  {
    assert OTHER !in ExtTable.Values;
  }

  /** Because the key is "TXT", a "file.txt" is classified OTHER. */
  lemma DotTxtIsOther()
    ensures ConvertFileExtToResType(".TXT") == OTHER
    ensures ConvertFileExtToResType(AdaptResourceName("a.txt").1) == OTHER
  {
    var u := ToUpper("a.txt");
    forall k | 0 <= k < 5 ensures u[k] == "A.TXT"[k] {
      assert u[k] == ToUpperChar("a.txt"[k]);
    }
    assert u == "A.TXT";
    assert "A.TXT"[..4] == "A.TX" && "A.TX"[..3] == "A.T" && "A.T"[..2] == "A.";
    assert FindLastOfSep("A.TXT") == Some(1);
    assert AdaptResourceName("a.txt").1 == ".TXT";
  }

  /** The only extension that normalisation can produce and the table maps to
      TEXT is ".JSON": the "TXT" key is unreachable from a real file name. */
  lemma AdaptedTextIsJson(resName: string)
    ensures ConvertFileExtToResType(AdaptResourceName(resName).1) == TEXT
            ==> AdaptResourceName(resName).1 == ".JSON"
  {
  }

  /** The identifier a loader with namespace `prefix` registers for the raw
      name `raw` (`IResourceLoader::addEntryToMap`). */
  function Ident(prefix: string, raw: string): (id: ResourceIdentifier)
    ensures id.name + AdaptResourceName(raw).1 == prefix + ToUpper(raw)
    ensures id.resType == ConvertFileExtToResType(AdaptResourceName(raw).1)
  {
    var (name, ext) := AdaptResourceName(raw);
    ResourceIdentifier(prefix + name, ConvertFileExtToResType(ext))
  }
}
