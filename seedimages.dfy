/**
 * Loading the seed pictures (`generate_seed_images`): pick the image files
 * out of the folder listing, visit them in sorted order, and name each one
 * after its file.
 */
module SeedImages {
  import opened Wrappers
  import opened Strings
  import opened Imaging
  import DataUri

  /** The suffixes that mark an image file, compared after lower-casing. */
  const ImageExtensions: seq<string> := [".png", ".jpg", ".jpeg", ".gif", ".bmp"]

  /** Name shown for the placeholder when the folder does not exist. */
  const FallbackName: string := "Add Your Images"

  /** `f.lower().endswith(('.png', '.jpg', '.jpeg', '.gif', '.bmp'))` */
  predicate IsImageFile(name: string) {
    EndsWithAny(Lower(name), ImageExtensions)
  }

  /** A name is accepted exactly when its lower-cased form ends in one of the five suffixes. */
  lemma IsImageFileIff(name: string)
    ensures IsImageFile(name) <==>
      EndsWith(Lower(name), ".png") || EndsWith(Lower(name), ".jpg") || EndsWith(Lower(name), ".jpeg") ||
      EndsWith(Lower(name), ".gif") || EndsWith(Lower(name), ".bmp")
  {
    var l := Lower(name);
    var e := ImageExtensions;
    assert e[1..] == [".jpg", ".jpeg", ".gif", ".bmp"];
    assert e[1..][1..] == [".jpeg", ".gif", ".bmp"];
    assert e[1..][1..][1..] == [".gif", ".bmp"];
    assert e[1..][1..][1..][1..] == [".bmp"];
    assert e[1..][1..][1..][1..][1..] == [];
    assert EndsWithAny(l, e[1..][1..][1..][1..]) == EndsWith(l, ".bmp");
    assert EndsWithAny(l, e[1..][1..][1..]) == (EndsWith(l, ".gif") || EndsWith(l, ".bmp"));
    assert EndsWithAny(l, e[1..][1..]) == (EndsWith(l, ".jpeg") || EndsWith(l, ".gif") || EndsWith(l, ".bmp"));
    assert EndsWithAny(l, e[1..]) ==
      (EndsWith(l, ".jpg") || EndsWith(l, ".jpeg") || EndsWith(l, ".gif") || EndsWith(l, ".bmp"));
  }

  /** The list comprehension over the folder listing, keeping the listing's order and repeats. */
  function ImageFiles(files: seq<string>): (r: seq<string>)
    ensures forall f :: multiset(r)[f] == if IsImageFile(f) then multiset(files)[f] else 0
    ensures forall f :: f in r <==> f in files && IsImageFile(f)
    ensures |r| <= |files|
    decreases |files|
  {
    if files == [] then []
    else
      assert files == [files[0]] + files[1..];
      (if IsImageFile(files[0]) then [files[0]] else []) + ImageFiles(files[1..])
  }

  /** `s.rfind(c)`: the index of the last c, or -1. */
  function RFind(s: string, c: char): (i: int)
    ensures -1 <= i < |s|
    ensures i >= 0 ==> s[i] == c
    ensures forall j :: i < j < |s| ==> s[j] != c
    decreases |s|
  {
    if s == [] then -1
    else if s[|s| - 1] == c then |s| - 1
    else RFind(s[..|s| - 1], c)
  }

  predicate AllDots(s: string) {
    forall j :: 0 <= j < |s| ==> s[j] == '.'
  }

  /**
   * `os.path.splitext(name)[0]` for a bare file name: cut at the last dot,
   * unless only dots precede it (a leading-dot name has no extension).
   */
  function Stem(name: string): (r: string)
  {
    var dot := RFind(name, '.');
    if dot >= 0 && !AllDots(name[..dot]) then name[..dot] else name
  }

  /** A suffix that starts with its only dot. */
  predicate DotSuffix(e: string) {
    |e| > 0 && e[0] == '.' && forall j :: 0 < j < |e| ==> e[j] != '.'
  }

  /** If the lower-cased name ends in such a suffix, the name's last dot starts it. */
  lemma LastDotOfSuffix(name: string, e: string)
    requires DotSuffix(e) && EndsWith(Lower(name), e)
    ensures RFind(name, '.') == |name| - |e|
  {
    var d := |name| - |e|;
    DotAt(name, e, d);
    forall j | d < j < |name|
      ensures name[j] != '.'
    {
      DotAt(name, e, j);
    }
    var r := RFind(name, '.');
    assert r >= d;
  }

  /** Position j of the name holds a dot exactly when the suffix does there. */
  lemma DotAt(name: string, e: string, j: int)
    requires EndsWith(Lower(name), e) && |name| - |e| <= j < |name|
    ensures name[j] == '.' <==> e[j - (|name| - |e|)] == '.'
  {
    var l := Lower(name);
    assert l[j] == l[|name| - |e|..][j - (|name| - |e|)];
    if IsUpper(name[j]) {
      assert l[j] as int == name[j] as int + 32;
    }
  }

  /** Each accepted suffix starts with its only dot. */
  lemma ExtensionIsDotSuffix(i: nat)
    requires i < |ImageExtensions|
    ensures DotSuffix(ImageExtensions[i])
  {
    var e := ImageExtensions[i];
    assert e[1] != '.' && e[2] != '.' && e[3] != '.';
    assert |e| == 5 ==> e[4] != '.';
  }

  /** In an accepted file name, the last dot is the one that starts the suffix. */
  lemma LastDotOfImageFile(name: string, i: nat)
    requires i < |ImageExtensions| && EndsWith(Lower(name), ImageExtensions[i])
    ensures RFind(name, '.') == |name| - |ImageExtensions[i]|
  {
    ExtensionIsDotSuffix(i);
    LastDotOfSuffix(name, ImageExtensions[i]);
  }

  /**
   * For an accepted file whose name holds something other than dots before
   * the suffix, the stem is the name without that suffix.
   */
  lemma StemOfImageFile(name: string, i: nat)
    requires i < |ImageExtensions| && EndsWith(Lower(name), ImageExtensions[i])
    requires !AllDots(name[..|name| - |ImageExtensions[i]|])
    ensures Stem(name) == name[..|name| - |ImageExtensions[i]|]
  {
    LastDotOfImageFile(name, i);
  }

  /**
   * For an accepted file with nothing but dots (or nothing) before the
   * suffix, `splitext` finds no extension and the stem is the whole name.
   */
  lemma StemOfDotOnlyImageFile(name: string, i: nat)
    requires i < |ImageExtensions| && EndsWith(Lower(name), ImageExtensions[i])
    requires AllDots(name[..|name| - |ImageExtensions[i]|])
    ensures Stem(name) == name
  {
    LastDotOfImageFile(name, i);
  }

  /** Examples: ".png" and "..png" keep their names, "my.photo.png" is cut at its last dot. */
  lemma StemOfDotName()
    ensures Stem(".png") == ".png" && Stem("..png") == "..png"
    ensures Stem("my.photo.png") == "my.photo"
  {
    var a, b, c := ".png", "..png", "my.photo.png";
    assert a[0] == '.' && a[1] != '.' && a[2] != '.' && a[3] != '.';
    assert RFind(a, '.') == 0;
    assert b[1] == '.' && b[2] != '.' && b[3] != '.' && b[4] != '.';
    assert RFind(b, '.') == 1 && b[..1] == ".";
    assert c[8] == '.' && c[9] != '.' && c[10] != '.' && c[11] != '.';
    assert RFind(c, '.') == 8 && c[..8] == "my.photo" && c[0] != '.';
  }

  /** `os.path.splitext(f)[0].replace('-', ' ').replace('_', ' ').title()` */
  function DisplayName(name: string): (r: string)
    ensures |r| == |Stem(name)|
  {
    Title(Replace(Replace(Stem(name), "-", " "), "_", " "))
  }

  /** The character the two replacements leave at a position of the stem. */
  function Unseparated(c: char): (d: char) {
    if c in "-_" then ' ' else c
  }

  /**
   * The display name has the stem's length; every '-' and '_' has become a
   * space, other non-letters are kept, and a letter is upper-cased at the
   * start or after a non-letter (a separator counting as one) and
   * lower-cased otherwise.
   */
  lemma DisplayNameAt(name: string, k: nat)
    requires k < |Stem(name)|
    ensures |DisplayName(name)| == |Stem(name)|
    ensures Stem(name)[k] in "-_" ==> DisplayName(name)[k] == ' '
    ensures !IsCased(Stem(name)[k]) && Stem(name)[k] !in "-_" ==> DisplayName(name)[k] == Stem(name)[k]
    ensures IsCased(Stem(name)[k]) ==>
      DisplayName(name)[k] == if k == 0 || !IsCased(Stem(name)[k - 1]) then ToUpper(Stem(name)[k]) else ToLower(Stem(name)[k])
    ensures DisplayName(name)[k] != '-' && DisplayName(name)[k] != '_'
  {
    var s := Stem(name);
    ReplaceCharAt(s, '-', ' ');
    var s1 := Replace(s, "-", " ");
    assert s1 == Replace(s, ['-'], [' ']);
    ReplaceCharAt(s1, '_', ' ');
    var s2 := Replace(s1, "_", " ");
    assert s2 == Replace(s1, ['_'], [' ']);
    assert s2[k] == Unseparated(s[k]);
    if k > 0 {
      assert s2[k - 1] == Unseparated(s[k - 1]);
      assert IsCased(s2[k - 1]) == IsCased(s[k - 1]);
    }
    TitleAt(s2, k);
  }

  /** "my-cat.PNG" is accepted and shown as "My Cat". */
  lemma DisplayNameExample()
    ensures IsImageFile("my-cat.PNG")
    ensures DisplayName("my-cat.PNG") == "My Cat"
  {
    var n := "my-cat.PNG";
    assert Lower(n)[6..] == ".png";
    assert EndsWith(Lower(n), ImageExtensions[0]);
    assert n[..6][0] != '.';
    StemOfImageFile(n, 0);
    assert Stem(n) == "my-cat";
    ReplacedExample();
    TitleExample();
  }

  lemma ReplacedExample()
    ensures Replace(Replace("my-cat", "-", " "), "_", " ") == "my cat"
  {
    var s := "my-cat";
    ReplaceCharAt(s, '-', ' ');
    var s1 := Replace(s, "-", " ");
    assert s1 == Replace(s, ['-'], [' ']);
    assert s1 == "my cat";
    ReplaceCharAt(s1, '_', ' ');
    assert Replace(s1, "_", " ") == Replace(s1, ['_'], [' ']);
  }

  lemma TitleExample()
    ensures Title("my cat") == "My Cat"
  {
    var s := "my cat";
    TitleFromAt(s, false);
    assert Title(s) == TitleFrom(s, false);
    assert ToUpper('m') == 'M' && ToUpper('c') == 'C';
    assert Title(s)[0] == 'M' && Title(s)[1] == 'y' && Title(s)[2] == ' ';
    assert Title(s)[3] == 'C' && Title(s)[4] == 'a' && Title(s)[5] == 't';
  }

  /** One entry of the seed list: display name, the resized picture and its data URI. */
  datatype SeedImage = SeedImage(name: string, image: Image, data: string)

  /** The entry made for a file that loaded as `img`. */
  function Entry(file: string, img: Image, png: Image -> string): (entry: SeedImage) {
    SeedImage(DisplayName(file), img, DataUri.Wrap(png(img)))
  }

  /**
   * The list the loop builds: every file that `load` opens, in the given
   * order; a file that fails to load is skipped.
   */
  function Loaded(files: seq<string>, load: string -> Option<Image>, png: Image -> string): (entries: seq<SeedImage>)
    decreases |files|
  {
    if files == [] then []
    else
      var init := Loaded(files[..|files| - 1], load, png);
      var f := files[|files| - 1];
      match load(f)
      case None => init
      case Some(img) => init + [Entry(f, img, png)]
  }

  /** The placeholder entry used when the seed folder is missing. */
  function Fallback(png: Image -> string): (entry: SeedImage) {
    SeedImage(FallbackName, Placeholder, DataUri.Wrap(png(Placeholder)))
  }

  /**
   * What `generate_seed_images` returns: for a folder listing, the loaded
   * image files in sorted order; for a missing folder (`None`), the single
   * placeholder.
   */
  function SeedImagesOf(listing: Option<seq<string>>, load: string -> Option<Image>, png: Image -> string): (seedImages: seq<SeedImage>) {
    match listing
    case None => [Fallback(png)]
    case Some(all) => Loaded(Sort(ImageFiles(all)), load, png)
  }

  /**
   * `generate_seed_images`. `listing` is `os.listdir` of the seed folder
   * (`None` when it does not exist); `load(f)` opens, converts and resizes
   * file f, `None` standing for an exception; `png(img)` is the base64 text
   * of the picture saved as PNG.
   */
  method GenerateSeedImages(listing: Option<seq<string>>, load: string -> Option<Image>, png: Image -> string)
    returns (seedImages: seq<SeedImage>)
    ensures seedImages == SeedImagesOf(listing, load, png)
  {
    seedImages := [];
    if listing.Some? {
      var imageFiles := ImageFiles(listing.value);
      var files := Sort(imageFiles);
      for i := 0 to |files|
        invariant seedImages == Loaded(files[..i], load, png)
      {
        var filename := files[i];
        assert files[..i + 1][..i] == files[..i];
        match load(filename)
        case None =>
        case Some(image) =>
          var name := DisplayName(filename);
          seedImages := seedImages + [SeedImage(name, image, DataUri.Wrap(png(image)))];
      }
      assert files[..|files|] == files;
    } else {
      seedImages := seedImages + [SeedImage(FallbackName, Placeholder, DataUri.Wrap(png(Placeholder)))];
    }
  }

  /** Every loaded entry is the entry of a file that loads, at or after its own position. */
  lemma {:induction false} LoadedFrom(files: seq<string>, load: string -> Option<Image>, png: Image -> string, i: nat)
    requires i < |Loaded(files, load, png)|
    ensures exists j :: i <= j < |files| && load(files[j]).Some? && Loaded(files, load, png)[i] == Entry(files[j], load(files[j]).value, png)
    decreases |files|
  {
    var init := files[..|files| - 1];
    var last := |files| - 1;
    var r0 := Loaded(init, load, png);
    if i < |r0| {
      LoadedFrom(init, load, png, i);
      var j :| i <= j < |init| && load(init[j]).Some? && r0[i] == Entry(init[j], load(init[j]).value, png);
      assert files[j] == init[j];
      assert Loaded(files, load, png)[i] == r0[i];
    } else {
      LoadedLength(init, load, png);
      assert load(files[last]).Some?;
      assert Loaded(files, load, png) == r0 + [Entry(files[last], load(files[last]).value, png)];
    }
  }

  /** The positions of the files that load, in increasing order. */
  function LoadedIndices(files: seq<string>, load: string -> Option<Image>): (indices: seq<nat>)
    decreases |files|
  {
    if files == [] then []
    else
      var init := LoadedIndices(files[..|files| - 1], load);
      if load(files[|files| - 1]).Some? then init + [|files| - 1] else init
  }

  /**
   * Entry i of the list is the entry of file `LoadedIndices(files, load)[i]`;
   * those positions increase strictly and take in every file that loads, so
   * the list keeps the files' order and leaves out exactly the failures.
   */
  lemma LoadedOrder(files: seq<string>, load: string -> Option<Image>, png: Image -> string)
    ensures |LoadedIndices(files, load)| == |Loaded(files, load, png)|
    ensures forall i :: 0 <= i < |LoadedIndices(files, load)| ==>
      var j := LoadedIndices(files, load)[i];
      j < |files| && load(files[j]).Some? && Loaded(files, load, png)[i] == Entry(files[j], load(files[j]).value, png)
    ensures forall i1, i2 :: 0 <= i1 < i2 < |LoadedIndices(files, load)| ==>
      LoadedIndices(files, load)[i1] < LoadedIndices(files, load)[i2]
    ensures forall j :: 0 <= j < |files| && load(files[j]).Some? ==> j in LoadedIndices(files, load)
  {
    LoadedIndicesLength(files, load, png);
    LoadedIndicesRange(files, load);
    forall i | 0 <= i < |LoadedIndices(files, load)|
      ensures Loaded(files, load, png)[i] == Entry(files[LoadedIndices(files, load)[i]], load(files[LoadedIndices(files, load)[i]]).value, png)
    {
      LoadedAt(files, load, png, i);
    }
  }

  /** There are as many positions as entries. */
  lemma {:induction false} LoadedIndicesLength(files: seq<string>, load: string -> Option<Image>, png: Image -> string)
    ensures |LoadedIndices(files, load)| == |Loaded(files, load, png)|
    decreases |files|
  {
    if files != [] {
      LoadedIndicesLength(files[..|files| - 1], load, png);
    }
  }

  /**
   * The positions are positions of files that load, strictly increasing,
   * and every file that loads is among them.
   */
  lemma {:induction false} LoadedIndicesRange(files: seq<string>, load: string -> Option<Image>)
    ensures forall i :: 0 <= i < |LoadedIndices(files, load)| ==>
      LoadedIndices(files, load)[i] < |files| && load(files[LoadedIndices(files, load)[i]]).Some?
    ensures forall i1, i2 :: 0 <= i1 < i2 < |LoadedIndices(files, load)| ==>
      LoadedIndices(files, load)[i1] < LoadedIndices(files, load)[i2]
    ensures forall j :: 0 <= j < |files| && load(files[j]).Some? ==> j in LoadedIndices(files, load)
    decreases |files|
  {
    if files != [] {
      var init := files[..|files| - 1];
      LoadedIndicesRange(init, load);
      var idx0 := LoadedIndices(init, load);
      assert forall i :: 0 <= i < |idx0| ==> files[idx0[i]] == init[idx0[i]];
      assert forall j :: 0 <= j < |init| ==> files[j] == init[j];
    }
  }

  /** Entry i is the entry of the file at position `LoadedIndices(files, load)[i]`. */
  lemma {:induction false} LoadedAt(files: seq<string>, load: string -> Option<Image>, png: Image -> string, i: nat)
    requires i < |LoadedIndices(files, load)|
    ensures |LoadedIndices(files, load)| == |Loaded(files, load, png)|
    ensures LoadedIndices(files, load)[i] < |files| && load(files[LoadedIndices(files, load)[i]]).Some?
    ensures Loaded(files, load, png)[i] == Entry(files[LoadedIndices(files, load)[i]], load(files[LoadedIndices(files, load)[i]]).value, png)
    decreases |files|
  {
    var init := files[..|files| - 1];
    var idx0 := LoadedIndices(init, load);
    LoadedIndicesLength(files, load, png);
    LoadedIndicesLength(init, load, png);
    if i < |idx0| {
      LoadedAt(init, load, png, i);
      assert files[idx0[i]] == init[idx0[i]];
    }
  }

  /** The loop drops failing files only, so the list is never longer than the files. */
  lemma {:induction false} LoadedLength(files: seq<string>, load: string -> Option<Image>, png: Image -> string)
    ensures |Loaded(files, load, png)| <= |files|
    ensures (forall j :: 0 <= j < |files| ==> load(files[j]).Some?) ==> |Loaded(files, load, png)| == |files|
    decreases |files|
  {
    if files != [] {
      LoadedLength(files[..|files| - 1], load, png);
    }
  }

  /** When every file loads, entry i is the entry of file i. */
  lemma {:induction false} LoadedAll(files: seq<string>, load: string -> Option<Image>, png: Image -> string, i: nat)
    requires forall j :: 0 <= j < |files| ==> load(files[j]).Some?
    requires i < |files|
    ensures |Loaded(files, load, png)| == |files|
    ensures Loaded(files, load, png)[i] == Entry(files[i], load(files[i]).value, png)
    decreases |files|
  {
    var init := files[..|files| - 1];
    LoadedLength(files, load, png);
    LoadedLength(init, load, png);
    if i < |init| {
      LoadedAll(init, load, png, i);
    }
  }

  /** Each seed entry of an existing folder is a loadable image file of that folder, named after it. */
  lemma SeedImageOrigin(all: seq<string>, load: string -> Option<Image>, png: Image -> string, i: nat)
    requires i < |SeedImagesOf(Some(all), load, png)|
    ensures exists f :: (f in all && IsImageFile(f) && load(f).Some? &&
      SeedImagesOf(Some(all), load, png)[i] == Entry(f, load(f).value, png))
  {
    var files := Sort(ImageFiles(all));
    LoadedFrom(files, load, png, i);
    var j :| i <= j < |files| && load(files[j]).Some? && Loaded(files, load, png)[i] == Entry(files[j], load(files[j]).value, png);
    assert files[j] in multiset(files);
    assert files[j] in ImageFiles(all);
  }

  /** A folder that exists but holds no image files gives an empty list; a missing one gives the placeholder alone. */
  lemma NoImagesInFolder(all: seq<string>, load: string -> Option<Image>, png: Image -> string)
    ensures (forall f :: f in all ==> !IsImageFile(f)) ==> SeedImagesOf(Some(all), load, png) == []
    ensures (forall f :: f in all && IsImageFile(f) ==> load(f).None?) ==> SeedImagesOf(Some(all), load, png) == []
    ensures SeedImagesOf(None, load, png) == [SeedImage(FallbackName, Placeholder, DataUri.Wrap(png(Placeholder)))]
  {
    var files := Sort(ImageFiles(all));
    if forall f :: f in all ==> !IsImageFile(f) {
      assert multiset(ImageFiles(all)) == multiset{};
      assert files == [];
    }
    if forall f :: f in all && IsImageFile(f) ==> load(f).None? {
      forall j | 0 <= j < |files|
        ensures load(files[j]).None?
      {
        assert files[j] in multiset(files);
      }
      NothingLoads(files, load, png);
    }
  }

  /** When no file loads, the loop appends nothing. */
  lemma {:induction false} NothingLoads(files: seq<string>, load: string -> Option<Image>, png: Image -> string)
    requires forall j :: 0 <= j < |files| ==> load(files[j]).None?
    ensures Loaded(files, load, png) == []
    decreases |files|
  {
    if files != [] {
      NothingLoads(files[..|files| - 1], load, png);
    }
  }

  /** When every accepted file loads, the entries follow the sorted file names one for one. */
  lemma SeedImagesSorted(all: seq<string>, load: string -> Option<Image>, png: Image -> string)
    requires forall f :: f in all && IsImageFile(f) ==> load(f).Some?
    ensures |SeedImagesOf(Some(all), load, png)| == |ImageFiles(all)|
    ensures forall i :: 0 <= i < |ImageFiles(all)| ==>
      SeedImagesOf(Some(all), load, png)[i].name == DisplayName(Sort(ImageFiles(all))[i])
  {
    var files := Sort(ImageFiles(all));
    assert |files| == |multiset(files)| == |multiset(ImageFiles(all))| == |ImageFiles(all)|;
    forall j | 0 <= j < |files|
      ensures load(files[j]).Some?
    {
      assert files[j] in multiset(files);
    }
    LoadedLength(files, load, png);
    forall i | 0 <= i < |files|
      ensures Loaded(files, load, png)[i].name == DisplayName(files[i])
    {
      LoadedAll(files, load, png, i);
    }
  }

  /** Stripping the header off any entry's data gives back the picture's base64 text. */
  lemma SeedDataStrips(listing: Option<seq<string>>, load: string -> Option<Image>, png: Image -> string, i: nat)
    requires forall img :: DataUri.IsBase64(png(img))
    requires i < |SeedImagesOf(listing, load, png)|
    ensures DataUri.Strip(SeedImagesOf(listing, load, png)[i].data) == png(SeedImagesOf(listing, load, png)[i].image)
  {
    var e := SeedImagesOf(listing, load, png)[i];
    if listing.Some? {
      SeedImageOrigin(listing.value, load, png, i);
    }
    DataUri.StripWrap(png(e.image));
  }
}
