/** How a movie's stored fields are derived from the fields the movie-metadata
    service returns for one film. */
module Metadata {
  import opened Wrappers
  import Text

  /** The fields of one metadata-service detail response that the catalogue reads. */
  datatype Details = Details(title: string, releaseDate: string, overview: string, posterPath: string)

  /** Overviews longer than this many characters are cut. */
  const DescriptionLimit: nat := 245

  /** Appended to a cut overview. */
  const Ellipsis: string := ".."

  /** Prefix of every poster URL. */
  const ImageBase: string := "https://image.tmdb.org/t/p/w500/"

  function Min(a: nat, b: nat): nat {
    if a <= b then a else b
  }

  /** The year of a release date: the text before its first '-' (all of it
      when there is none), the first piece of a split on '-'. */
  function Year(releaseDate: string): (year: string)
    ensures '-' !in year
    ensures year <= releaseDate
    ensures |year| < |releaseDate| ==> releaseDate[|year|] == '-'
  {
    Text.Split(releaseDate, '-')[0]
  }

  /** The year is the one prefix of the release date that stops exactly at
      the first '-' or at the end. */
  lemma {:induction false} YearUnique(releaseDate: string, p: string)
    requires p <= releaseDate && '-' !in p
    requires |p| == |releaseDate| || releaseDate[|p|] == '-'
    ensures Year(releaseDate) == p
  {
    var y := Year(releaseDate);
    assert p == releaseDate[..|p|] == y;
  }

  /** A full ISO date yields its four-digit year. */
  lemma YearOfIsoDate()
    ensures Year("2003-07-09") == "2003"
  {
    YearUnique("2003-07-09", "2003");
  }

  /** The description: the overview itself when it has at most
      DescriptionLimit characters, otherwise its first DescriptionLimit
      characters followed by the ellipsis. */
  function Description(overview: string): (d: string)
    ensures |overview| <= DescriptionLimit ==> d == overview
    ensures |overview| > DescriptionLimit ==> |d| == DescriptionLimit + |Ellipsis| && d[DescriptionLimit..] == Ellipsis
    ensures |d| <= DescriptionLimit + |Ellipsis|
    ensures d[..Min(|overview|, DescriptionLimit)] == overview[..Min(|overview|, DescriptionLimit)]
  {
    if |overview| > DescriptionLimit then overview[..DescriptionLimit] + Ellipsis else overview
  }

  /** Describing a description changes nothing. */
  lemma DescriptionIdempotent(overview: string)
    ensures Description(Description(overview)) == Description(overview)
  {
    var d := Description(overview);
    if |overview| > DescriptionLimit {
      assert d == d[..DescriptionLimit] + d[DescriptionLimit..];
    }
  }

  /** The description equals the overview exactly when the overview is short
      enough, or is a full-length cut that already ends in the ellipsis. */
  lemma DescriptionUnchangedIff(overview: string)
    ensures Description(overview) == overview <==>
      |overview| <= DescriptionLimit
      || (|overview| == DescriptionLimit + |Ellipsis| && overview[DescriptionLimit..] == Ellipsis)
  {
    if |overview| == DescriptionLimit + |Ellipsis| && overview[DescriptionLimit..] == Ellipsis {
      assert overview == overview[..DescriptionLimit] + overview[DescriptionLimit..];
    }
  }

  /** The poster URL: the image base followed by the poster path. */
  function PosterUrl(posterPath: string): (url: string)
    ensures ImageBase <= url
    ensures |url| == |ImageBase| + |posterPath|
    ensures url[|ImageBase|..] == posterPath
  {
    ImageBase + posterPath
  }

  /** The poster path a poster URL was built from, if it was built by PosterUrl. */
  function PosterPathOf(url: string): (p: Option<string>)
    ensures p.Some? <==> ImageBase <= url
    ensures p.Some? ==> ImageBase + p.value == url
  {
    if ImageBase <= url then Some(url[|ImageBase|..]) else None
  }

  /** PosterPathOf undoes PosterUrl. */
  lemma PosterUrlRoundTrip(posterPath: string)
    ensures PosterPathOf(PosterUrl(posterPath)) == Some(posterPath)
  {
  }

  /** PosterUrl undoes PosterPathOf on every URL it accepts. */
  lemma PosterPathRoundTrip(url: string)
    requires PosterPathOf(url).Some?
    ensures PosterUrl(PosterPathOf(url).value) == url
  {
  }
}
