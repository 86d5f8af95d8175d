/** The tile naming scheme shared by the scripts: a downloaded archive is
    named `{id}_{YYYY-MM-DD}.zip`, the unzip step writes one file
    `{id}_{YYYYMMDD}T000000_{band}.tif` per band, and the dataset step
    recovers the tile id `{id}_{YYYYMMDD}T000000` from such a file name and
    compares it with the id it builds from a feature row. */
module TileNames {
  import opened Text

  const TimeSuffix := "T000000"
  const BandExtension := ".tif"

  /** The two halves of a `{head}_{tail}` name. */
  datatype TileKey = TileKey(head: string, tail: string)

  /** `year, month, day = date.split('-')` and `f'{year}{month}{day}T000000'`:
      the date with its two dashes removed, followed by a midnight time. */
  function DateStamp(date: string): (r: Result<string>)
    ensures r.Ok? <==> Occurrences(date, '-') == 2
    ensures r.Ok? ==> r.value == Strip(date, '-') + TimeSuffix
    ensures r.Err? ==> r.error == UnpackError(3, Occurrences(date, '-') + 1)
  {
    match Unpack(date, '-', 3)
    case Err(e) => Err(e)
    case Ok(p) =>
      ConcatSplit(date, '-');
      assert p == [p[0], p[1], p[2]];
      ConcatThree(p[0], p[1], p[2]);
      Ok(p[0] + p[1] + p[2] + TimeSuffix)
  }

  /** `get_file_id(geohash, date)`: the id of the tile of a feature row. */
  function FileId(geohash: string, date: string): (r: Result<string>)
    ensures r.Ok? <==> Occurrences(date, '-') == 2
    ensures r.Ok? ==> r.value == geohash + "_" + Strip(date, '-') + TimeSuffix
    ensures r.Err? ==> r.error == UnpackError(3, Occurrences(date, '-') + 1)
  {
    match DateStamp(date)
    case Err(e) => Err(e)
    case Ok(stamp) => Ok(geohash + "_" + stamp)
  }

  /** `a, b = os.path.splitext(name)[0].split('_')`: the extension-stripped
      name cut at its one underscore. */
  function SplitStem(name: string): (r: Result<TileKey>)
    ensures r.Ok? <==> Occurrences(Stem(name), '_') == 1
    ensures r.Ok? ==> r.value.head + "_" + r.value.tail == Stem(name)
    ensures r.Ok? ==> '_' !in r.value.head && '_' !in r.value.tail
    ensures r.Err? ==> r.error == UnpackError(2, Occurrences(Stem(name), '_') + 1)
  {
    match Unpack(Stem(name), '_', 2)
    case Err(e) => Err(e)
    case Ok(p) =>
      assert p == [p[0], p[1]];
      JoinTwo(p[0], p[1], '_');
      Ok(TileKey(p[0], p[1]))
  }

  /** `_, band, _ = member.split('.')`: the part between the two dots of an
      extracted file name. */
  function Band(member: string): (r: Result<string>)
    ensures r.Ok? <==> Occurrences(member, '.') == 2
    ensures r.Ok? ==> '.' !in r.value
    ensures r.Ok? ==> exists pre, post :: '.' !in pre && '.' !in post && member == pre + "." + r.value + "." + post
    ensures r.Err? ==> r.error == UnpackError(3, Occurrences(member, '.') + 1)
  {
    match Unpack(member, '.', 3)
    case Err(e) => Err(e)
    case Ok(p) =>
      assert p == [p[0], p[1], p[2]];
      JoinThree(p[0], p[1], p[2], '.');
      Ok(p[1])
  }

  /** The name the unzip step gives an extracted member of the archive of
      tile `id` taken on `date`; the member name is split before the date. */
  function OutputName(id: string, date: string, member: string): (r: Result<string>)
    ensures r.Ok? <==> Occurrences(member, '.') == 2 && Occurrences(date, '-') == 2
    ensures r.Ok? ==> r.value == FileId(id, date).value + "_" + Band(member).value + BandExtension
    ensures r.Err? && Band(member).Err? ==> r == Err(Band(member).error)
    ensures r.Err? && Band(member).Ok? ==> r == Err(DateStamp(date).error)
  {
    match Band(member)
    case Err(e) => Err(e)
    case Ok(band) =>
      match DateStamp(date)
      case Err(e) => Err(e)
      case Ok(stamp) => Ok(id + "_" + stamp + "_" + band + BandExtension)
  }

  /** `geohash, date, _ = entry.split('_')` and `f'{geohash}_{date}'`: the
      tile id of an image file is its name up to its last underscore, and
      the name must hold exactly two underscores. */
  function TileIdOf(entry: string): (r: Result<string>)
    ensures r.Ok? <==> Occurrences(entry, '_') == 2
    ensures r.Ok? ==> Occurrences(r.value, '_') == 1
    ensures r.Ok? ==> |r.value| < |entry| && entry[..|r.value|] == r.value
    ensures r.Ok? ==> entry[|r.value|] == '_' && '_' !in entry[|r.value| + 1..]
    ensures r.Err? ==> r.error == UnpackError(3, Occurrences(entry, '_') + 1)
  {
    match Unpack(entry, '_', 3)
    case Err(e) => Err(e)
    case Ok(p) =>
      var id := p[0] + "_" + p[1];
      assert p == [p[0], p[1], p[2]];
      JoinThree(p[0], p[1], p[2], '_');
      assert entry == id + "_" + p[2];
      assert entry[|id| + 1..] == p[2];
      JoinSplit([p[0], p[1]], '_');
      Ok(id)
  }

  /** The unzip step run on one archive: the names it writes, in the order
      of the extracted members, up to the first member that raises. */
  method RenameArchive(archive: string, members: seq<string>) returns (written: seq<string>, err: Option<Error>)
    ensures |written| <= |members|
    ensures SplitStem(archive).Err? ==> written == [] && err == Some(SplitStem(archive).error)
    ensures var key := SplitStem(archive);
      key.Ok? ==>
        && (forall j :: 0 <= j < |written| ==> OutputName(key.value.head, key.value.tail, members[j]) == Ok(written[j]))
        && (err.None? <==> |written| == |members|)
        && (err.Some? ==> OutputName(key.value.head, key.value.tail, members[|written|]) == Err(err.value))
  {
    var key := SplitStem(archive);
    if key.Err? {
      return [], Some(key.error);
    }
    var id, date := key.value.head, key.value.tail;
    written := [];
    for i := 0 to |members|
      invariant |written| == i
      invariant forall j :: 0 <= j < i ==> OutputName(id, date, members[j]) == Ok(written[j])
    {
      var name := OutputName(id, date, members[i]);
      if name.Err? {
        return written, Some(name.error);
      }
      written := written + [name.value];
    }
    err := None;
  }

  /** An archive named `{id}_{date}.{ext}` gives back its id and date. */
  lemma ArchiveNameRoundTrip(id: string, date: string, ext: string)
    requires '_' !in id && '_' !in date && '.' !in ext
    ensures SplitStem(id + "_" + date + "." + ext) == Ok(TileKey(id, date))
  {
    var base := id + "_" + date;
    assert base[|id|] == '_';
    assert !AllDots(base);
    StemOfExtension(base, ext);
    assert id + "_" + date + "." + ext == base + "." + ext;
    JoinSplit([id, date], '_');
  }

  lemma StampFree(date: string)
    requires DateStamp(date).Ok? && '_' !in date
    ensures '_' !in DateStamp(date).value
  {
    var stamp := DateStamp(date).value;
    var stripped := Strip(date, '-');
    assert stamp == stripped + TimeSuffix;
    forall i | 0 <= i < |stamp| ensures stamp[i] != '_' {
      if i < |stripped| {
        assert stamp[i] == stripped[i];
      } else {
        assert stamp[i] == TimeSuffix[i - |stripped|];
      }
    }
  }

  /** A file the unzip step writes splits, in the dataset step, into the
      archive id, the date stamp and the band file name, so the tile id
      recovered from it is the one `get_file_id` builds from the archive's
      id and date (for a band without underscores). */
  lemma {:induction false} OutputNameSplitsBack(archive: string, member: string)
    requires SplitStem(archive).Ok?
    requires var key := SplitStem(archive).value; OutputName(key.head, key.tail, member).Ok?
    requires '_' !in Band(member).value
    ensures var key := SplitStem(archive).value;
      var name := OutputName(key.head, key.tail, member).value;
      && Split(name, '_') == [key.head, DateStamp(key.tail).value, Band(member).value + BandExtension]
      && TileIdOf(name) == FileId(key.head, key.tail)
  {
    var key := SplitStem(archive).value;
    var id, date := key.head, key.tail;
    var stamp, band := DateStamp(date).value, Band(member).value;
    var name := OutputName(id, date, member).value;
    var last := band + BandExtension;
    StampFree(date);
    assert '_' !in last by {
      forall i | 0 <= i < |last| ensures last[i] != '_' {
        if i < |band| {
          assert last[i] == band[i];
        } else {
          assert last[i] == BandExtension[i - |band|];
        }
      }
    }
    var parts := [id, stamp, last];
    JoinThree(id, stamp, last, '_');
    assert name == id + "_" + stamp + "_" + last;
    JoinSplit(parts, '_');
    assert Split(name, '_') == parts;
    assert Unpack(name, '_', 3) == Ok(parts);
  }

  /** Two files written from one archive differ exactly when their bands do. */
  lemma OutputNamesDifferOnlyInBand(id: string, date: string, m1: string, m2: string)
    requires OutputName(id, date, m1).Ok? && OutputName(id, date, m2).Ok?
    ensures OutputName(id, date, m1) == OutputName(id, date, m2) <==> Band(m1) == Band(m2)
  {
    var prefix := FileId(id, date).value + "_";
    var b1, b2 := Band(m1).value, Band(m2).value;
    var n1, n2 := prefix + b1 + BandExtension, prefix + b2 + BandExtension;
    if n1 == n2 {
      assert |b1| == |b2|;
      assert b1 == n1[|prefix|..|prefix| + |b1|];
      assert b2 == n2[|prefix|..|prefix| + |b2|];
    }
  }
}
