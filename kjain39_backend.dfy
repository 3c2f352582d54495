/**
 * P105.CodeReview/KJAIN39/Backend.java: the song backend that splits CSV
 * lines itself and answers range, filter and top-five queries over the songs
 * its tree yields. The tree is shown only through its iteration order, the
 * sequence `songs`; reading the file and parsing integers are outside the
 * model, but the splitting loop of readData is modelled in full.
 */
module Kjain39 {
  import opened SongSpec
  import opened CsvSpec

  /** What the splitting loop leaves: the nine-slot array and its fill count, or the overrun exception. */
  datatype Outcome = Stored(parts: seq<Slot>, count: nat) | IndexOutOfBounds

  /**
   * The field-splitting loop of readData(filename) on one line. The fields of
   * the line are stored trimmed into a nine-slot array, a comma outside quotes
   * closing each one. A tenth closing comma writes past the end of the array
   * and throws ArrayIndexOutOfBoundsException. The field still open at the
   * end of the line is stored only when it is non-empty before trimming and a
   * slot is free. readData builds a song from the line exactly when count
   * reaches 9.
   */
  method SplitLine(line: string) returns (r: Outcome)
    ensures r.IndexOutOfBounds? <==> |Fields(line)| > 10
    ensures r.Stored? ==>
              var f := Fields(line);
              var closed := |f| - 1;
              && |r.parts| == 9
              && r.count == closed + (if |f[closed]| > 0 && closed < 9 then 1 else 0)
              && (forall k :: 0 <= k < r.count ==> r.parts[k] == Text(Trim(f[k])))
              && (forall k :: r.count <= k < 9 ==> r.parts[k] == Null)
  {
    var parts := new Slot[9](_ => Null);
    var index := 0;
    var inQuotes := false;
    var currentField: string := [];
    ghost var stored: seq<string> := [];
    var i := 0;
    while i < |line|
      invariant 0 <= i <= |line| && 0 <= index <= 9 && |stored| == index
      invariant Scanned(line[..i]) == Scan(stored, inQuotes, currentField)
      invariant parts[..index] == Cleaned(stored)
      invariant forall k :: index <= k < 9 ==> parts[k] == Null
    {
      var c := line[i];
      ScannedNext(line, i);
      if c == '"' {
        inQuotes := !inQuotes;
      } else if c == ',' && !inQuotes {
        if index == 9 {
          Overrun(line, i);
          return IndexOutOfBounds;
        }
        Store(parts, index, stored, currentField);
        index := index + 1;
        stored := stored + [currentField];
        currentField := [];
      } else {
        currentField := currentField + [c];
      }
      i := i + 1;
    }
    assert line[..i] == line;
    ScanFields(line);
    ghost var f := Fields(line);
    assert f == stored + [currentField];
    if |currentField| > 0 && index < 9 {
      Store(parts, index, stored, currentField);
      index := index + 1;
      assert f[..index] == stored + [currentField];
    } else {
      assert f[..index] == stored;
    }
    CleanedPrefix(f, index, parts[..index]);
    r := Stored(parts[..], index);
  }

  /** parts[index] = currentField.trim(): one more field stored, the free slots after it untouched. */
  method Store(parts: array<Slot>, index: nat, ghost stored: seq<string>, field: string)
    requires index < parts.Length && parts[..index] == Cleaned(stored)
    modifies parts
    ensures parts[..index + 1] == Cleaned(stored + [field])
    ensures forall k :: 0 <= k < parts.Length && k != index ==> parts[k] == old(parts[k])
  {
    ghost var before := parts[..index];
    parts[index] := Text(Trim(field));
    assert parts[..index + 1] == before + [Text(Trim(field))];
    CleanedSnoc(stored, field);
  }

  /** A comma that closes a tenth field leaves at least one more field after it. */
  lemma {:induction false} Overrun(line: string, i: nat)
    requires i < |line| && |Scanned(line[..i + 1]).closed| == 10
    ensures |Fields(line)| > 10
  {
    ScanSplit(line[..i + 1], line[i + 1..]);
    assert line[..i + 1] + line[i + 1..] == line;
  }

  /** The first n slots are the first n fields, trimmed. */
  lemma {:induction false} CleanedPrefix(f: seq<string>, n: nat, slots: seq<Slot>)
    requires n <= |f| && slots == Cleaned(f[..n])
    ensures forall k :: 0 <= k < n ==> slots[k] == Text(Trim(f[k]))
  {
    forall k | 0 <= k < n ensures slots[k] == Text(Trim(f[k])) {
      assert f[..n][k] == f[k];
    }
  }

  class Backend {
    /** The songs the backend's tree yields, in iteration order. */
    const songs: seq<Song>
    var loudnessThreshold: Bound
    var lowYearBound: Bound
    var highYearBound: Bound

    /** Backend(tree): no year bounds and no loudness filter yet. */
    constructor(songs: seq<Song>)
      ensures this.songs == songs
      ensures loudnessThreshold == Unset && lowYearBound == Unset && highYearBound == Unset
    {
      this.songs := songs;
      loudnessThreshold := Unset;
      lowYearBound := Unset;
      highYearBound := Unset;
    }

    /**
     * getRange(low, high): the titles of the songs within the year bounds and
     * under the stored loudness threshold, in iteration order; the bounds are
     * stored for later queries.
     */
    method GetRange(low: Bound, high: Bound) returns (titles: seq<string>)
      modifies this
      ensures titles == Titles(Kept(songs, low, high, old(loudnessThreshold)))
      ensures lowYearBound == low && highYearBound == high && loudnessThreshold == old(loudnessThreshold)
    {
      titles := [];
      ghost var kept: seq<Song> := [];
      var i := 0;
      while i < |songs|
        invariant 0 <= i <= |songs|
        invariant kept == Kept(songs[..i], low, high, loudnessThreshold) && titles == Titles(kept)
      {
        var song := songs[i];
        assert songs[..i + 1][..i] == songs[..i];
        var year := song.year;
        if (low.Unset? || year >= low.value) && (high.Unset? || year <= high.value) {
          if loudnessThreshold.Unset? || song.loudness < loudnessThreshold.value {
            titles := titles + [song.title];
            kept := kept + [song];
          }
        }
        i := i + 1;
      }
      assert songs[..i] == songs;
      lowYearBound := low;
      highYearBound := high;
    }

    /** setFilter(threshold): stores the threshold and re-runs getRange with the stored bounds. */
    method SetFilter(threshold: Bound) returns (titles: seq<string>)
      modifies this
      ensures loudnessThreshold == threshold
      ensures lowYearBound == old(lowYearBound) && highYearBound == old(highYearBound)
      ensures titles == Titles(Kept(songs, old(lowYearBound), old(highYearBound), threshold))
    {
      loudnessThreshold := threshold;
      titles := GetRange(lowYearBound, highYearBound);
    }

    /**
     * fiveMost(): the titles of the first min(5, n) of the n songs passing
     * the stored bounds and threshold, once those are stably sorted by
     * decreasing danceability.
     */
    method FiveMost() returns (mostDanceable: seq<string>)
      ensures var sorted := SortBy(Kept(songs, lowYearBound, highYearBound, loudnessThreshold), ByDanceabilityDesc);
              mostDanceable == Titles(sorted[..Min(5, |sorted|)])
    {
      var filteredSongs: seq<Song> := [];
      var i := 0;
      while i < |songs|
        invariant 0 <= i <= |songs|
        invariant filteredSongs == Kept(songs[..i], lowYearBound, highYearBound, loudnessThreshold)
      {
        var song := songs[i];
        assert songs[..i + 1][..i] == songs[..i];
        var year := song.year;
        if (lowYearBound.Unset? || year >= lowYearBound.value) && (highYearBound.Unset? || year <= highYearBound.value) {
          if loudnessThreshold.Unset? || song.loudness < loudnessThreshold.value {
            filteredSongs := filteredSongs + [song];
          }
        }
        i := i + 1;
      }
      assert songs[..i] == songs;
      var sorted := SortBy(filteredSongs, ByDanceabilityDesc);
      mostDanceable := [];
      var j := 0;
      while j < Min(5, |sorted|)
        invariant 0 <= j <= Min(5, |sorted|)
        invariant mostDanceable == Titles(sorted[..j])
      {
        mostDanceable := mostDanceable + [sorted[j].title];
        j := j + 1;
      }
    }
  }
}
