/**
 * The frame listing of `backend/app/api/images.py`: which directory entries
 * are frames, the order they are served in, and the URLs built for them.
 */
module ImageListing {
  import opened Common
  import opened Text

  /** The index of the first digit at or after `i`, or `|s|` if there is none. */
  function FirstDigitFrom(s: string, i: nat): (j: nat)
    requires i <= |s|
    ensures i <= j <= |s|
    ensures forall k :: i <= k < j ==> !IsDigit(s[k])
    ensures j < |s| ==> IsDigit(s[j])
    decreases |s| - i
  {
    if i == |s| || IsDigit(s[i]) then i else FirstDigitFrom(s, i + 1)
  }

  /** The end of the run of digits that starts at `i`: the first non-digit at or after `i`, or `|s|`. */
  function RunEndFrom(s: string, i: nat): (j: nat)
    requires i <= |s|
    ensures i <= j <= |s|
    ensures forall k :: i <= k < j ==> IsDigit(s[k])
    ensures j < |s| ==> !IsDigit(s[j])
    decreases |s| - i
  {
    if i == |s| || !IsDigit(s[i]) then i else RunEndFrom(s, i + 1)
  }

  /**
   * `extract_number`: the value of the first maximal run of decimal digits
   * in `s` (`re.search(r'\d+', s)`), or -1 when `s` has no digit.
   */
  function ExtractNumber(s: string): (r: int)
    ensures r == -1 <==> forall k :: 0 <= k < |s| ==> !IsDigit(s[k])
    ensures r >= -1
  {
    var i := FirstDigitFrom(s, 0);
    if i == |s| then -1
    else
      var j := RunEndFrom(s, i);
      ParseDecimal(s[i..j])
  }

  /**
   * The number is read from the first run of digits, whatever follows it:
   * a name made of non-digits, then digits, then text that does not continue
   * the run yields exactly the value of those digits.
   */
  lemma ExtractNumberOfRun(before: string, digits: string, after: string)
    requires forall k :: 0 <= k < |before| ==> !IsDigit(before[k])
    requires |digits| > 0 && AllDigits(digits)
    requires after == [] || !IsDigit(after[0])
    ensures ExtractNumber(before + digits + after) == ParseDecimal(digits)
  {
    var s := before + digits + after;
    assert forall k :: 0 <= k < |before| ==> s[k] == before[k];
    assert forall k :: 0 <= k < |digits| ==> s[|before| + k] == digits[k];
    assert after != [] ==> s[|before| + |digits|] == after[0];
    assert IsDigit(s[|before|]);
    assert forall k :: 0 <= k < |before| ==> !IsDigit(s[k]);
    var i := FirstDigitFrom(s, 0);
    assert i == |before|;
    var j := RunEndFrom(s, i);
    assert j == |before| + |digits|;
    assert s[i..j] == digits;
  }

  /** Frames written under five-digit names read back to their index, e.g. "frame_00042.jpg" gives 42. */
  lemma ExtractNumberOfPaddedName(n: int)
    requires 0 <= n < 100000
    ensures ExtractNumber("frame_" + Format05d(n) + ".jpg") == n
  {
    Format05dRoundTrip(n);
    ExtractNumberOfRun("frame_", Format05d(n), ".jpg");
  }

  /** The position of the last '.' in `name`, if any. */
  function LastDot(name: string): (r: Option<nat>)
    ensures r.Some? ==> r.value < |name| && name[r.value] == '.'
    ensures r.Some? ==> forall k :: r.value < k < |name| ==> name[k] != '.'
    ensures r.None? ==> forall k :: 0 <= k < |name| ==> name[k] != '.'
  {
    if name == [] then None
    else if name[|name| - 1] == '.' then Some(|name| - 1)
    else LastDot(name[..|name| - 1])
  }

  lemma LastDotAt(name: string, i: nat)
    requires i < |name| && name[i] == '.'
    requires forall k :: i < k < |name| ==> name[k] != '.'
    ensures LastDot(name) == Some(i)
  {
  }

  /** `PurePath.suffix`: from the last dot on, unless that dot opens or closes the name. */
  function Suffix(name: string): (r: string)
    ensures r == [] || (r[0] == '.' && |r| >= 2 && |r| < |name| && name[|name| - |r|..] == r)
    ensures r != [] ==> LastDot(name) == Some(|name| - |r|)
    ensures r == [] <==> LastDot(name).None? || LastDot(name).value == 0 || LastDot(name).value == |name| - 1
  {
    match LastDot(name)
    case Some(i) => if 0 < i < |name| - 1 then name[i..] else ""
    case None => ""
  }

  /** The comprehension filter: the suffix, lower-cased, is one of ".jpg", ".jpeg", ".png". */
  predicate IsFrameFile(name: string)
  {
    ToLower(Suffix(name)) in [".jpg", ".jpeg", ".png"]
  }

  function FrameFiles(entries: seq<string>): (r: seq<string>)
    ensures forall k :: 0 <= k < |r| ==> IsFrameFile(r[k])
    ensures multiset(r) <= multiset(entries)
  {
    if entries == [] then []
    else
      var rest := FrameFiles(entries[1..]);
      assert entries == [entries[0]] + entries[1..];
      if IsFrameFile(entries[0]) then [entries[0]] + rest else rest
  }

  /** The entries of `s` that `keep` accepts, in order. */
  function Filter(s: seq<string>, keep: string -> bool): seq<string>
  {
    if s == [] then [] else (if keep(s[0]) then [s[0]] else []) + Filter(s[1..], keep)
  }

  lemma {:induction false} FilterDistributes(a: seq<string>, b: seq<string>, keep: string -> bool)
    ensures Filter(a + b, keep) == Filter(a, keep) + Filter(b, keep)
  {
    if a == [] {
      assert a + b == b;
    } else {
      assert (a + b)[0] == a[0] && (a + b)[1..] == a[1..] + b;
      FilterDistributes(a[1..], b, keep);
    }
  }

  /** The comprehension is the filter by `IsFrameFile`. */
  lemma {:induction false} FrameFilesIsFilter(entries: seq<string>)
    ensures FrameFiles(entries) == Filter(entries, IsFrameFile)
  {
    if entries != [] {
      FrameFilesIsFilter(entries[1..]);
    }
  }

  /** The filter keeps the listing's order: filtering a concatenation concatenates the filtered parts. */
  lemma FrameFilesDistributes(a: seq<string>, b: seq<string>)
    ensures FrameFiles(a + b) == FrameFiles(a) + FrameFiles(b)
  {
    FrameFilesIsFilter(a + b);
    FrameFilesIsFilter(a);
    FrameFilesIsFilter(b);
    FilterDistributes(a, b, IsFrameFile);
  }

  /** The filter drops only non-frame files. */
  lemma {:induction false} FrameFilesKeepFrames(entries: seq<string>, e: string)
    requires e in entries && IsFrameFile(e)
    ensures e in FrameFiles(entries)
  {
    if entries[0] != e {
      FrameFilesKeepFrames(entries[1..], e);
    }
  }

  /** Keys never decrease along `s`. */
  predicate SortedByNumber(s: seq<string>)
  {
    forall i, j :: 0 <= i < j < |s| ==> ExtractNumber(s[i]) <= ExtractNumber(s[j])
  }

  /** The entries of `s` whose key is `k`, in their order in `s`. */
  function WithNumber(s: seq<string>, k: int): seq<string>
  {
    if s == [] then []
    else if ExtractNumber(s[0]) == k then [s[0]] + WithNumber(s[1..], k)
    else WithNumber(s[1..], k)
  }

  /** Places `x` in front of the first entry whose key is not below its own. */
  function Insert(x: string, t: seq<string>): (r: seq<string>)
    ensures multiset(r) == multiset(t) + multiset{x}
    ensures |r| == |t| + 1 && (r[0] == x || (t != [] && r[0] == t[0]))
  {
    if t == [] then [x]
    else if ExtractNumber(x) <= ExtractNumber(t[0]) then [x] + t
    else
      assert t == [t[0]] + t[1..];
      [t[0]] + Insert(x, t[1..])
  }

  /** Inserting into a list sorted by number keeps it sorted. */
  lemma {:induction false} InsertSorted(x: string, t: seq<string>)
    requires SortedByNumber(t)
    ensures SortedByNumber(Insert(x, t))
  {
    if t == [] {
    } else if ExtractNumber(x) <= ExtractNumber(t[0]) {
      SortedCons(x, t);
    } else {
      var rest := Insert(x, t[1..]);
      InsertSorted(x, t[1..]);
      SortedCons(t[0], rest);
    }
  }

  /** Putting an entry whose key is at most the head's in front of a sorted list keeps it sorted. */
  lemma SortedCons(x: string, t: seq<string>)
    requires SortedByNumber(t) && (t == [] || ExtractNumber(x) <= ExtractNumber(t[0]))
    ensures SortedByNumber([x] + t)
  {
    forall i, j | 0 <= i < j < |[x] + t|
      ensures ExtractNumber(([x] + t)[i]) <= ExtractNumber(([x] + t)[j])
    {
      if i == 0 && j > 1 {
        assert ExtractNumber(t[0]) <= ExtractNumber(t[j - 1]);
      }
    }
  }

  /** `sorted(files, key=extract_number)`, as an insertion sort; Python's sort is stable. */
  function SortByNumber(s: seq<string>): (r: seq<string>)
    ensures SortedByNumber(r)
    ensures multiset(r) == multiset(s)
  {
    if s == [] then []
    else
      assert s == [s[0]] + s[1..];
      InsertSorted(s[0], SortByNumber(s[1..]));
      Insert(s[0], SortByNumber(s[1..]))
  }

  lemma {:induction false} InsertKeepsEqualKeysInOrder(x: string, t: seq<string>, k: int)
    requires SortedByNumber(t)
    ensures WithNumber(Insert(x, t), k) ==
            (if ExtractNumber(x) == k then [x] + WithNumber(t, k) else WithNumber(t, k))
  {
    if t == [] {
    } else if ExtractNumber(x) <= ExtractNumber(t[0]) {
      assert ([x] + t)[1..] == t;
    } else {
      var r := [t[0]] + Insert(x, t[1..]);
      assert r[1..] == Insert(x, t[1..]);
      InsertKeepsEqualKeysInOrder(x, t[1..], k);
    }
  }

  /**
   * Stability: entries that share a key keep their relative order, so frames
   * without a number (key -1) or with equal numbers stay in listing order.
   */
  lemma {:induction false} SortIsStable(s: seq<string>, k: int)
    ensures WithNumber(SortByNumber(s), k) == WithNumber(s, k)
  {
    if s != [] {
      SortIsStable(s[1..], k);
      InsertKeepsEqualKeysInOrder(s[0], SortByNumber(s[1..]), k);
    }
  }

  /** The frames of a folder listing, in the order they are served. */
  function ListedFrames(entries: seq<string>): seq<string>
  {
    SortByNumber(FrameFiles(entries))
  }

  /** The URL served for one frame file. */
  function FrameUrl(folder: string, name: string): string
  {
    "/static/" + folder + "/" + name
  }

  /**
   * `get_images`: `resolved` is the folder path after resolution, `root` the
   * resolved uploads directory, `folderExists` whether the folder exists and
   * `entries` the names `iterdir` yields.
   */
  function GetImages(folder: string, resolved: string, root: string, folderExists: bool, entries: seq<string>)
    : (r: Result<seq<string>>)
    ensures r.Err? && r.error.status == 400 <==> !StartsWith(resolved, root)
    ensures r.Err? && r.error.status == 404 <==> StartsWith(resolved, root) && !folderExists
    ensures StartsWith(resolved, root) && folderExists ==> r.Ok?
    ensures r.Ok? ==> |r.value| == |ListedFrames(entries)|
    ensures r.Ok? ==> forall k :: 0 <= k < |r.value| ==> r.value[k] == FrameUrl(folder, ListedFrames(entries)[k])
  {
    if !StartsWith(resolved, root) then Err(HttpError(400, "Invalid folder name"))
    else if !folderExists then Err(HttpError(404, "Folder not found"))
    else
      var names := ListedFrames(entries);
      Ok(seq(|names|, k requires 0 <= k < |names| => FrameUrl(folder, names[k])))
  }

  /** What the listed frames are: image files only, each entry exactly once, ordered by number. */
  lemma ListedFramesAreSortedImages(entries: seq<string>)
    ensures SortedByNumber(ListedFrames(entries))
    ensures multiset(ListedFrames(entries)) == multiset(FrameFiles(entries))
    ensures forall e :: e in ListedFrames(entries) <==> e in entries && IsFrameFile(e)
  {
    var f := FrameFiles(entries);
    var l := ListedFrames(entries);
    forall e
      ensures e in l <==> e in entries && IsFrameFile(e)
    {
      assert e in l <==> e in multiset(l);
      assert e in f <==> e in multiset(f);
      if e in f {
        assert e in multiset(entries);
        var k :| 0 <= k < |f| && f[k] == e;
      }
      if e in entries && IsFrameFile(e) {
        FrameFilesKeepFrames(entries, e);
      }
    }
  }

  /** Example: a text file is not a frame; an upper-case extension is. */
  lemma SuffixExamples()
    ensures !IsFrameFile("notes.txt") && IsFrameFile("f10.png") && IsFrameFile("f2.JPG")
  {
    LastDotAt("notes.txt", 5);
    LastDotAt("f10.png", 3);
    LastDotAt("f2.JPG", 2);
    assert Suffix("f2.JPG") == ".JPG";
    assert ToLower(".JPG") == ".jpg";
    assert ToLower(".png") == ".png";
    assert ToLower(".txt") == ".txt";
  }

  lemma NumberExamples()
    ensures ExtractNumber("f10.png") == 10 && ExtractNumber("f2.JPG") == 2
  {
    ExtractNumberOfRun("f", "10", ".png");
    ExtractNumberOfRun("f", "2", ".JPG");
    assert "f" + "10" + ".png" == "f10.png";
    assert "f" + "2" + ".JPG" == "f2.JPG";
  }

  lemma FilterExample()
    ensures FrameFiles(["f10.png", "notes.txt", "f2.JPG"]) == ["f10.png", "f2.JPG"]
  {
    SuffixExamples();
    KeepDropKeep("f10.png", "notes.txt", "f2.JPG");
  }

  /** Of three entries, the middle one that is not an image is dropped and the order of the others kept. */
  lemma KeepDropKeep(a: string, b: string, c: string)
    requires IsFrameFile(a) && !IsFrameFile(b) && IsFrameFile(c)
    ensures FrameFiles([a, b, c]) == [a, c]
  {
    FrameFilesSingle(c);
    assert [b, c][1..] == [c];
    assert FrameFiles([b, c]) == FrameFiles([c]);
    assert [a, b, c][1..] == [b, c];
    assert FrameFiles([a, b, c]) == [a] + FrameFiles([b, c]);
  }

  /** A one-entry listing is kept exactly when the entry is a frame file. */
  lemma FrameFilesSingle(x: string)
    ensures FrameFiles([x]) == if IsFrameFile(x) then [x] else []
  {
    assert [x][1..] == [];
  }

  lemma SortExample()
    ensures SortByNumber(["f10.png", "f2.JPG"]) == ["f2.JPG", "f10.png"]
  {
    NumberExamples();
    assert ["f10.png", "f2.JPG"][1..] == ["f2.JPG"];
    assert SortByNumber(["f2.JPG"]) == ["f2.JPG"];
  }

  /** Example: a non-image entry is dropped and "f2" is served before "f10". */
  lemma ListingExample()
    ensures ListedFrames(["f10.png", "notes.txt", "f2.JPG"]) == ["f2.JPG", "f10.png"]
  {
    FilterExample();
    SortExample();
  }
}
