/** Names of rotated files. */
module FileNames {
  import opened Printing

  datatype Position = Nowhere | At(index: nat)

  /** The last place where c stands. */
  function LastIndex(s: string, c: char): (p: Position)
    ensures p.Nowhere? ==> forall k :: 0 <= k < |s| ==> s[k] != c
    ensures p.At? ==> p.index < |s| && s[p.index] == c && forall k :: p.index < k < |s| ==> s[k] != c
  {
    if s == [] then Nowhere
    else if s[|s| - 1] == c then At(|s| - 1)
    else LastIndex(s[..|s| - 1], c)
  }

  /** Base name and extension, by the position of the last dot and of the last folder separator. */
  function SplitByExtension(name: string): (string, string) {
    match LastIndex(name, '.')
    case Nowhere => (name, "")
    case At(dot) =>
      if dot == 0 || dot == |name| - 1 then (name, "")
      else
        match LastIndex(name, '/')
        case Nowhere => (name[..dot], name[dot..])
        case At(folder) => if folder >= dot - 1 then (name, "") else (name[..dot], name[dot..])
  }

  /** A real extension: a dot and a nonempty rest without dots and folder separators. */
  predicate IsExtension(ext: string) {
    |ext| >= 2 && ext[0] == '.' && forall k :: 1 <= k < |ext| ==> ext[k] != '.' && ext[k] != '/'
  }

  /** What may stand before an extension: not the start of a folder or of the path. */
  predicate IsStem(stem: string) {
    stem != [] && stem[|stem| - 1] != '/'
  }

  /** The split cuts off a real extension wherever the name has one. */
  lemma SplitMeaning(stem: string, ext: string)
    requires IsStem(stem) && IsExtension(ext)
    ensures SplitByExtension(stem + ext) == (stem, ext)
  {
    var name := stem + ext;
    assert name[|stem|] == '.';
    assert LastIndex(name, '.') == At(|stem|);
    assert name[|stem| - 1] != '/';
    assert name[..|stem|] == stem && name[|stem|..] == ext;
  }

  /** The split loses nothing and cuts off nothing but a real extension. */
  lemma SplitParts(name: string)
    ensures var (stem, ext) := SplitByExtension(name);
            stem + ext == name && (ext == "" || (IsStem(stem) && IsExtension(ext)))
  {
  }

  function CalcFilename(name: string, index: nat): string {
    if index == 0 then name
    else SplitByExtension(name).0 + "." + Digits(index) + SplitByExtension(name).1
  }

  /** The name of an older file: a dot and its index in front of the extension. */
  lemma IndexedName(stem: string, ext: string, index: nat) returns (numeral: string)
    requires IsStem(stem) && IsExtension(ext) && index > 0
    ensures IsNumeral(numeral, index) && CalcFilename(stem + ext, index) == stem + "." + numeral + ext
  {
    numeral := Digits(index);
    DigitsAreNumeral(index);
    SplitMeaning(stem, ext);
  }

  /** Without an extension the dot and the index come last. */
  lemma IndexedPlainName(name: string, index: nat) returns (numeral: string)
    requires index > 0 && forall k :: 0 <= k <= |name| ==> !(IsStem(name[..k]) && IsExtension(name[k..]))
    ensures IsNumeral(numeral, index) && CalcFilename(name, index) == name + "." + numeral
  {
    numeral := Digits(index);
    DigitsAreNumeral(index);
    SplitParts(name);
    var (stem, ext) := SplitByExtension(name);
    assert name[..|stem|] == stem && name[|stem|..] == ext;
    assert name + "." + numeral + "" == name + "." + numeral;
  }

  /** Different indexes give different names, whatever the base name looks like. */
  lemma CalcFilenameInjective(name: string, i: nat, j: nat)
    requires i != j
    ensures CalcFilename(name, i) != CalcFilename(name, j)
  {
    SplitParts(name);
    var (stem, ext) := SplitByExtension(name);
    if i > 0 && j > 0 && CalcFilename(name, i) == CalcFilename(name, j) {
      assert |Digits(i)| == |Digits(j)|;
      var from, to := |stem| + 1, |stem| + 1 + |Digits(i)|;
      assert CalcFilename(name, i)[from..to] == Digits(i);
      assert CalcFilename(name, j)[from..to] == Digits(j);
      DigitsRead(i);
      DigitsRead(j);
    }
  }
}
