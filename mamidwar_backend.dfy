/**
 * P105.CodeReview/MAMIDWAR/Backend.java: the song backend whose range and
 * filter queries return titles stably sorted by year. The tree is shown only
 * through its iteration order, the sequence `songs`; reading the file is
 * outside the model.
 */
module Mamidwar {
  import opened SongSpec

  class Backend {
    /** The songs the backend's tree yields, in iteration order. */
    const songs: seq<Song>
    var filter: Bound
    var low: Bound
    var high: Bound

    /** Backend(tree): no year bounds and no loudness filter yet. */
    constructor(songs: seq<Song>)
      ensures this.songs == songs && filter == Unset && low == Unset && high == Unset
    {
      this.songs := songs;
      filter := Unset;
      low := Unset;
      high := Unset;
    }

    /** The songs passing the stored bounds and filter, in iteration order: the loop getRange, setFilter and fiveMost share. */
    method Filtered() returns (kept: seq<Song>)
      ensures kept == Kept(songs, low, high, filter)
    {
      kept := [];
      var i := 0;
      while i < |songs|
        invariant 0 <= i <= |songs|
        invariant kept == Kept(songs[..i], low, high, filter)
      {
        var song := songs[i];
        assert songs[..i + 1][..i] == songs[..i];
        var withinRange := true;
        if low.Set? && song.year < low.value {
          withinRange := false;
        }
        if high.Set? && song.year > high.value {
          withinRange := false;
        }
        if filter.Set? && song.loudness >= filter.value {
          withinRange := false;
        }
        if withinRange {
          kept := kept + [song];
        }
        i := i + 1;
      }
      assert songs[..i] == songs;
    }

    /** The titles of the songs, in order. */
    static method TitlesOf(list: seq<Song>) returns (titles: seq<string>)
      ensures titles == Titles(list)
    {
      titles := [];
      var i := 0;
      while i < |list|
        invariant 0 <= i <= |list| && titles == Titles(list[..i])
      {
        titles := titles + [list[i].title];
        i := i + 1;
      }
      assert list[..i] == list;
    }

    /**
     * getRange(low, high): stores the bounds, then returns the titles of the
     * songs within them and under the stored filter, stably sorted by year.
     */
    method GetRange(low: Bound, high: Bound) returns (titles: seq<string>)
      modifies this
      ensures this.low == low && this.high == high && filter == old(filter)
      ensures titles == Titles(SortBy(Kept(songs, low, high, filter), ByYear))
    {
      this.low := low;
      this.high := high;
      var inRange := Filtered();
      var sorted := SortBy(inRange, ByYear);
      titles := TitlesOf(sorted);
    }

    /**
     * setFilter(threshold): stores the threshold (Unset clears it), then
     * returns the titles of the songs within the stored bounds and under it,
     * stably sorted by year.
     */
    method SetFilter(threshold: Bound) returns (filteredTitles: seq<string>)
      modifies this
      ensures filter == threshold && low == old(low) && high == old(high)
      ensures filteredTitles == Titles(SortBy(Kept(songs, low, high, threshold), ByYear))
    {
      filter := threshold;
      var filteredSongs := Filtered();
      var sorted := SortBy(filteredSongs, ByYear);
      filteredTitles := TitlesOf(sorted);
    }

    /**
     * fiveMost(): the titles of the first min(5, n) of the n songs passing
     * the stored bounds and filter, once those are stably sorted by
     * decreasing danceability.
     */
    method FiveMost() returns (mostDanceable: seq<string>)
      ensures var sorted := SortBy(Kept(songs, low, high, filter), ByDanceabilityDesc);
              mostDanceable == Titles(sorted[..Min(5, |sorted|)])
    {
      var filteredSongs := Filtered();
      var sorted := SortBy(filteredSongs, ByDanceabilityDesc);
      mostDanceable := [];
      var i := 0;
      while i < Min(5, |sorted|)
        invariant 0 <= i <= Min(5, |sorted|)
        invariant mostDanceable == Titles(sorted[..i])
      {
        mostDanceable := mostDanceable + [sorted[i].title];
        i := i + 1;
      }
    }
  }
}
