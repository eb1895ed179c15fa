/** Multi-volume file names (android_opendisk64_file_func): the last `.` of
    the stored name, and everything from it on, is overwritten with
    `".z%02d"` of the disk number plus one, cut to the space the old name
    occupied (section 7.21.6.5 of ISO C11: snprintf writes at most size - 1
    characters and then a terminating NUL). */
module Volume {
  import opened Wrappers
  import opened CTypes
  import opened Strtol

  /** The index of the last `.` in s, if there is one. */
  function LastDot(s: string): (r: Option<nat>)
    ensures r.Some? ==> r.value < |s| && s[r.value] == '.'
    ensures r.Some? ==> forall j :: r.value < j < |s| ==> s[j] != '.'
    ensures r.None? <==> '.' !in s
  {
    if |s| == 0 then None
    else if s[|s| - 1] == '.' then Some(|s| - 1)
    else
      assert s == s[..|s| - 1] + [s[|s| - 1]];
      LastDot(s[..|s| - 1])
  }

  /** A dot with no dot after it is the last dot. */
  lemma LastDotAt(s: string, i: nat)
    requires i < |s| && s[i] == '.'
    requires forall j :: i < j < |s| ==> s[j] != '.'
    ensures LastDot(s) == Some(i)
  {
    assert s[i] in s;
  }

  /** Characters a formatted integer is made of. */
  predicate NumberChars(s: string) {
    forall k :: 0 <= k < |s| ==> IsDigit(s[k]) || s[k] == '-'
  }

  /** `printf("%02d", n)`: at least two characters, zero-padded after any sign
      (a negative n always has at least two, with its minus). */
  function Format02d(n: int): (r: string)
    ensures |r| >= 2 && NumberChars(r)
    ensures n >= 0 ==> AllDigits(r) && DigitsValue(r) == n
    ensures n < 0 ==> r[0] == '-' && AllDigits(r[1..]) && DigitsValue(r[1..]) == -n
  {
    if n < 0 then
      var r := "-" + Digits(-n);
      assert r[1..] == Digits(-n);
      r
    else if n < 10 then
      var r := "0" + Digits(n);
      assert r[..|r| - 1] == "0";
      r
    else Digits(n)
  }

  /** The text snprintf formats for a disk: `.z` and the two-digit number. */
  function VolumeSuffix(disk: int): string {
    ".z" + Format02d(disk)
  }

  lemma VolumeSuffixChars(disk: int)
    ensures |VolumeSuffix(disk)| >= 4 && VolumeSuffix(disk)[0] == '.'
    ensures forall k :: 1 <= k < |VolumeSuffix(disk)| ==> VolumeSuffix(disk)[k] != '.'
    ensures NoNul(VolumeSuffix(disk))
  {
    var s := VolumeSuffix(disk);
    var f := Format02d(disk);
    forall k | 2 <= k < |s| ensures s[k] != '.' && s[k] != '\0' {
      assert s[k] == f[k - 2];
      assert IsDigit(f[k - 2]) || f[k - 2] == '-';
    }
  }

  /** What snprintf keeps of `text` when it may write only `room` characters
      before the terminator. */
  function Truncate(text: string, room: nat): (r: string)
    ensures |r| == (if |text| <= room then |text| else room)
    ensures r == text[..|r|]
  {
    if |text| <= room then text else text[..room]
  }

  /** The name of disk `numberDisk` of the archive called `name`, or None when
      the name has no `.` at all. */
  function VolumeName(name: string, numberDisk: int): Option<string> {
    match LastDot(name)
    case None => None
    case Some(i) => Some(name[..i] + Truncate(VolumeSuffix(numberDisk + 1), |name| - i))
  }

  // ---------------------------------------------------------------------------
  // Properties of the derived names

  /** A name is derived exactly when the original has a dot; everything before
      the last dot is kept, the rest is a prefix of the suffix, and the result
      is never longer than the original. */
  lemma {:induction false} VolumeNameShape(name: string, numberDisk: int)
    ensures VolumeName(name, numberDisk).None? <==> '.' !in name
    ensures VolumeName(name, numberDisk).Some? ==>
              var i := LastDot(name).value;
              var r := VolumeName(name, numberDisk).value;
              && |r| <= |name|
              && r[..i] == name[..i]
              && r[i..] == VolumeSuffix(numberDisk + 1)[..|r| - i]
              && |r| - i == (if |VolumeSuffix(numberDisk + 1)| <= |name| - i
                             then |VolumeSuffix(numberDisk + 1)| else |name| - i)
  {
    if VolumeName(name, numberDisk).Some? {
      var i := LastDot(name).value;
      var r := VolumeName(name, numberDisk).value;
      var t := Truncate(VolumeSuffix(numberDisk + 1), |name| - i);
      VolumeSuffixChars(numberDisk + 1);
      assert r == name[..i] + t;
      assert r[i..] == t;
    }
  }

  /** When the old extension leaves room for the whole suffix, the new name is
      the stem followed by `.zNN` (disk + 1, zero-padded). */
  lemma VolumeNameWhole(name: string, numberDisk: int)
    requires LastDot(name).Some?
    requires |name| - LastDot(name).value >= |VolumeSuffix(numberDisk + 1)|
    ensures VolumeName(name, numberDisk)
              == Some(name[..LastDot(name).value] + VolumeSuffix(numberDisk + 1))
  {
  }

  /** The derived name keeps its last dot where the original had it. */
  lemma {:induction false} VolumeNameLastDot(name: string, numberDisk: int)
    requires LastDot(name).Some?
    ensures LastDot(VolumeName(name, numberDisk).value) == LastDot(name)
  {
    var i := LastDot(name).value;
    var suffix := VolumeSuffix(numberDisk + 1);
    var t := Truncate(suffix, |name| - i);
    var r := name[..i] + t;
    VolumeSuffixChars(numberDisk + 1);
    assert r[i] == '.';
    forall j | i < j < |r| ensures r[j] != '.' {
      assert r[j] == t[j - i] == suffix[j - i];
    }
    LastDotAt(r, i);
  }

  /** Deriving from an already derived name, for a disk whose number has as
      many digits, gives the same name as deriving from the original. */
  lemma {:induction false} VolumeNameRederived(name: string, a: int, b: int)
    requires LastDot(name).Some?
    requires |Format02d(a + 1)| == |Format02d(b + 1)|
    ensures VolumeName(VolumeName(name, a).value, b) == VolumeName(name, b)
  {
    var i := LastDot(name).value;
    var r := VolumeName(name, a).value;
    VolumeNameLastDot(name, a);
    VolumeNameShape(name, a);
    assert r[..i] == name[..i];
  }

  /** "archive.zip" with disk 0 becomes "archive.z01". */
  lemma VolumeNameFirstDisk()
    ensures VolumeName("archive.zip", 0) == Some("archive.z01")
  {
    LastDotAt("archive.zip", 7);
    assert VolumeSuffix(1) == ".z01";
    assert "archive.zip"[..7] + ".z01" == "archive.z01";
  }

  /** "archive.zip" with disk 9 becomes "archive.z10". */
  lemma VolumeNameTenthDisk()
    ensures VolumeName("archive.zip", 9) == Some("archive.z10")
  {
    LastDotAt("archive.zip", 7);
    assert Digits(10) == "10";
    assert VolumeSuffix(10) == ".z10";
    assert "archive.zip"[..7] + ".z10" == "archive.z10";
  }

  /** A name without a dot has no sibling volumes. */
  lemma VolumeNameNoDot()
    ensures VolumeName("archivezip", 0) == None
  {
    assert '.' !in "archivezip";
  }

  /** The last dot may sit in a directory component. */
  lemma VolumeNameDotInDirectory()
    ensures VolumeName("dir.d/archive", 0) == Some("dir.z01")
  {
    LastDotAt("dir.d/archive", 3);
    assert VolumeSuffix(1) == ".z01";
    assert "dir.d/archive"[..3] + ".z01" == "dir.z01";
  }

  /** A short extension cuts the suffix: "a.b" becomes "a.z". */
  lemma VolumeNameShortExtension()
    ensures VolumeName("a.b", 0) == Some("a.z")
  {
    LastDotAt("a.b", 1);
    assert VolumeSuffix(1)[..2] == ".z";
    assert "a.b"[..1] + ".z" == "a.z";
  }

  /** From disk 99 on, truncation makes different disks share a name. */
  lemma VolumeNameCollision()
    ensures VolumeName("archive.zip", 99) == VolumeName("archive.zip", 9)
  {
    LastDotAt("archive.zip", 7);
    assert Digits(10) == "10";
    assert Digits(100) == "100";
    assert VolumeSuffix(10) == ".z10";
    assert VolumeSuffix(100)[..4] == ".z10";
  }

  // ---------------------------------------------------------------------------
  // The buffer the C code works in

  /** snprintf(&buf[at], size, "%s", text): at most size - 1 characters of text,
      then NUL; the rest of the buffer is untouched. */
  method Snprintf(buf: array<char>, at: nat, size: nat, text: string)
    requires 1 <= size && at + size <= buf.Length
    modifies buf
    ensures var w := Truncate(text, size - 1);
            buf[..] == old(buf[..at]) + w + ['\0'] + old(buf[at + |w| + 1..])
  {
    var w := Truncate(text, size - 1);
    var k := 0;
    while k < |w|
      invariant 0 <= k <= |w|
      invariant forall j :: 0 <= j < at ==> buf[j] == old(buf[j])
      invariant forall j :: 0 <= j < k ==> buf[at + j] == w[j]
      invariant forall j :: at + k <= j < buf.Length ==> buf[j] == old(buf[j])
    {
      buf[at + k] := w[k];
      k := k + 1;
    }
    buf[at + |w|] := '\0';
    assert buf[..] == old(buf[..at]) + w + ['\0'] + old(buf[at + |w| + 1..]);
  }

  /** The stem before the dot and what is kept of a NUL-free text hold no NUL. */
  lemma StemTextNoNul(stem: string, text: string, room: nat)
    requires NoNul(stem) && NoNul(text)
    ensures NoNul(stem + Truncate(text, room))
  {
    var w := Truncate(text, room);
    assert forall k :: 0 <= k < |w| ==> w[k] == text[k];
  }

  /** The snprintf step of the loop, on the buffer that still holds the name
      and its terminator: the buffer then reads as the stem followed by what
      fits of the text. */
  method FormatAtDot(buf: array<char>, ghost filename: string, i: nat, text: string)
    returns (diskFilename: string)
    requires NoNul(filename) && NoNul(text) && buf[..] == filename + ['\0'] && i < |filename|
    modifies buf
    ensures NoNul(diskFilename) && UpToNul(buf[..]) == diskFilename
    ensures diskFilename == filename[..i] + Truncate(text, |filename| - i)
  {
    ghost var w := Truncate(text, |filename| - i);
    ghost var stem := buf[..i];
    ghost var rest := buf[i + |w| + 1..];
    assert stem == filename[..i];
    StemTextNoNul(stem, text, |filename| - i);
    Snprintf(buf, i, buf.Length - i, text);
    UpToNulAfter(stem + w, rest);
    diskFilename := UpToNul(buf[..]);
  }

  /** ioandroid.c:205-214: copy the name (with its terminator), scan
      backward from the terminator for a `.`, and format the disk suffix over
      it. Returns the index found (-1 for none) and the resulting C string. */
  method DiskFilename(filename: string, filenameLength: int, numberDisk: int)
    returns (i: int, diskFilename: string)
    requires NoNul(filename) && filenameLength == |filename| + 1
    requires IsInt(numberDisk) && numberDisk < INT_MAX
    ensures (i >= 0) <==> '.' in filename
    ensures NoNul(diskFilename)
    ensures i >= 0 ==> LastDot(filename) == Some(i)
    ensures i >= 0 ==> VolumeName(filename, numberDisk) == Some(diskFilename)
  {
    var buf := CopyString(filename);
    ghost var copy := buf[..];
    i := filenameLength - 1;
    diskFilename := [];
    while i >= 0
      invariant -1 <= i <= |filename|
      invariant buf[..] == copy
      invariant forall j :: i < j < |filename| ==> filename[j] != '.'
      decreases i + 1
    {
      if buf[i] != '.' {
        i := i - 1;
        continue;
      }
      assert copy[i] == '.' && i < |filename|;
      LastDotAt(filename, i);
      var suffix := VolumeSuffix(numberDisk + 1);
      VolumeSuffixChars(numberDisk + 1);
      diskFilename := FormatAtDot(buf, filename, i, suffix);
      VolumeNameAt(filename, i, numberDisk);
      break;
    }
    if i < 0 {
      NoDotFound(filename);
    }
  }

  lemma VolumeNameAt(name: string, i: nat, numberDisk: int)
    requires LastDot(name) == Some(i)
    ensures VolumeName(name, numberDisk) == Some(name[..i] + Truncate(VolumeSuffix(numberDisk + 1), |name| - i))
  {
  }

  lemma NoDotFound(s: string)
    requires forall j :: 0 <= j < |s| ==> s[j] != '.'
    ensures '.' !in s
  {
  }

  /** strdup: a fresh buffer holding the string and its terminator. */
  method CopyString(s: string) returns (buf: array<char>)
    requires NoNul(s)
    ensures fresh(buf) && buf[..] == s + ['\0']
  {
    buf := new char[|s| + 1](k => if 0 <= k < |s| then s[k] else '\0');
    assert buf[..] == s + ['\0'];
  }
}
