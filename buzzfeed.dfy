/**
 * The BuzzFeed playlist extractor: a page becomes a playlist whose entries are bare references found by
 * three strategies, concatenated in a fixed order: video-embed buckets, Facebook embeds, YouTube anchors.
 */
module BuzzFeed {
  import opened Wrappers
  import opened Text
  import opened Json
  import opened Info

  /** The two groups captured for one `<a ...>` tag: its `href` and its `class` attribute values. */
  datatype Anchor = Anchor(href: Option<string>, classes: Option<string>)

  /** What the extractor consults on a page, as functions of the page's text. */
  datatype Env = Env(
    buckets: string -> seq<Json>,         // re.findall of rel:bf_bucket_data, each passed to json.loads
    facebookUrls: string -> seq<string>,  // FacebookIE._extract_urls
    anchors: string -> seq<Anchor>,       // re.finditer over <a ...> tags
    ogTitle: string -> Option<string>,    // _og_search_title
    ogDescription: string -> Option<string>) // _og_search_description

  /** The playlist info dictionary `{'_type': 'playlist', ...}`. */
  datatype Playlist = Playlist(
    id: string,
    title: Option<string>,
    description: Option<string>,
    entries: seq<UrlResult>)

  // ---------------------------------------------------------------------------------------------
  // Video-embed buckets

  /** `bd.get('video') or bd.get('progload_video')`. */
  function BucketVideo(bd: Json): (v: Json)
    requires bd.JObject?
    ensures Truthy(Get(bd.fields, "video")) ==> v == Get(bd.fields, "video")
    ensures !Truthy(Get(bd.fields, "video")) ==> v == Get(bd.fields, "progload_video")
  {
    var video := Get(bd.fields, "video");
    if Truthy(video) then video else Get(bd.fields, "progload_video")
  }

  /**
   * What the loop body needs of a parsed bucket so as not to raise: it is an object and, when a video is
   * selected, that video is an object with a string under `url`.
   */
  predicate WellFormedBucket(bd: Json) {
    && bd.JObject?
    && (Truthy(BucketVideo(bd)) ==>
         BucketVideo(bd).JObject? && "url" in BucketVideo(bd).fields && BucketVideo(bd).fields["url"].JString?)
  }

  predicate WellFormedBuckets(buckets: seq<Json>) {
    forall i :: 0 <= i < |buckets| ==> WellFormedBucket(buckets[i])
  }

  function VideoUrlOf(video: Json): string
    requires video.JObject? && "url" in video.fields && video.fields["url"].JString?
  {
    video.fields["url"].str
  }

  /**
   * The entry one bucket contributes: the `video` URL when that value is truthy, else the `progload_video`
   * URL when that one is, else nothing (the loop's `continue`).
   */
  function BucketEntry(bd: Json): (r: Option<UrlResult>)
    requires WellFormedBucket(bd)
    ensures var video, progload := Get(bd.fields, "video"), Get(bd.fields, "progload_video");
      r == if Truthy(video) then Some(UrlResult(VideoUrlOf(video), None))
           else if Truthy(progload) then Some(UrlResult(VideoUrlOf(progload), None))
           else None
  {
    var video := BucketVideo(bd);
    if Truthy(video) then Some(UrlResult(VideoUrlOf(video), None)) else None
  }

  /** The bucket entries, in the order the buckets were found. */
  function BucketEntries(buckets: seq<Json>): (r: seq<UrlResult>)
    requires WellFormedBuckets(buckets)
    ensures |r| <= |buckets|
    ensures |buckets| == 1 ==> r == if BucketEntry(buckets[0]).Some? then [BucketEntry(buckets[0]).value] else []
    ensures forall e :: e in r ==> exists i :: 0 <= i < |buckets| && BucketEntry(buckets[i]) == Some(e)
    ensures forall i :: 0 <= i < |buckets| && BucketEntry(buckets[i]).Some? ==> BucketEntry(buckets[i]).value in r
    decreases |buckets|
  {
    if buckets == [] then []
    else
      var init := buckets[..|buckets| - 1];
      var last := buckets[|buckets| - 1];
      assert forall i :: 0 <= i < |init| ==> init[i] == buckets[i];
      var r := BucketEntries(init) + (if BucketEntry(last).Some? then [BucketEntry(last).value] else []);
      r
  }

  lemma WellFormedBucketsConcat(a: seq<Json>, b: seq<Json>)
    requires WellFormedBuckets(a) && WellFormedBuckets(b)
    ensures WellFormedBuckets(a + b)
  {
    forall i | 0 <= i < |a + b|
      ensures WellFormedBucket((a + b)[i])
    {
      if i >= |a| {
        assert (a + b)[i] == b[i - |a|];
      }
    }
  }

  lemma WellFormedBucketsPrefix(a: seq<Json>, k: nat)
    requires WellFormedBuckets(a) && k <= |a|
    ensures WellFormedBuckets(a[..k])
  {
    assert forall i :: 0 <= i < k ==> a[..k][i] == a[i];
  }

  /** Bucket order is kept: the entries of a concatenation are the concatenation of the entries. */
  lemma {:induction false} BucketEntriesAppend(a: seq<Json>, b: seq<Json>)
    requires WellFormedBuckets(a) && WellFormedBuckets(b)
    ensures WellFormedBuckets(a + b)
    ensures BucketEntries(a + b) == BucketEntries(a) + BucketEntries(b)
    decreases |b|
  {
    WellFormedBucketsConcat(a, b);
    if b == [] {
      assert a + b == a;
    } else {
      var b' := b[..|b| - 1];
      WellFormedBucketsPrefix(b, |b| - 1);
      BucketEntriesAppend(a, b');
      assert (a + b)[..|a + b| - 1] == a + b';
      assert (a + b)[|a + b| - 1] == b[|b| - 1];
    }
  }

  // ---------------------------------------------------------------------------------------------
  // YouTube anchors

  const YoutubeThumbMarker := "subbuzz-youtube__thumb"
  const YoutubeHost := "youtube.com"

  /** The position of the first `.` in `s`, or `|s|` when there is none. */
  function FirstDot(s: string): (k: nat)
    ensures k <= |s|
    ensures k < |s| ==> s[k] == '.'
    ensures forall i :: 0 <= i < k ==> s[i] != '.'
    decreases |s|
  {
    if s == [] || s[0] == '.' then 0 else 1 + FirstDot(s[1..])
  }

  /** After the scheme, `(?:[^.]*\.)?youtube\.com` matches from the start, as the regex engine searches it. */
  predicate HostIsYoutube(rest: string) {
    IsPrefix(YoutubeHost, rest) || (FirstDot(rest) < |rest| && IsPrefix(YoutubeHost, rest[FirstDot(rest) + 1..]))
  }

  /**
   * `re.search(r'^https?://(?:[^.]*\.)?youtube\.com', href)`: after the `http://` or `https://` scheme,
   * some `HostAt` position begins the `youtube.com` domain.
   */
  predicate YoutubeDomain(href: string): (b: bool)
    ensures b <==>
      || (IsPrefix("http://", href) && exists k :: HostAt(href[7..], k))
      || (IsPrefix("https://", href) && exists k :: HostAt(href[8..], k))
  {
    if IsPrefix("http://", href) then
      HostIsYoutubeIff(href[7..]);
      assert !IsPrefix("https://", href) by {
        if |href| >= 8 {
          assert href[4] == ':';
        }
      }
      HostIsYoutube(href[7..])
    else IsPrefix("https://", href) && (HostIsYoutubeIff(href[8..]); HostIsYoutube(href[8..]))
  }

  /** The regular expression's meaning: `youtube.com` begins at `k`, after no label or after one dot-free label and a dot. */
  predicate HostAt(rest: string, k: int) {
    && 0 <= k <= |rest|
    && (k == 0 || (rest[k - 1] == '.' && forall i :: 0 <= i < k - 1 ==> rest[i] != '.'))
    && IsPrefix(YoutubeHost, rest[k..])
  }

  lemma HostIsYoutubeIff(rest: string)
    ensures HostIsYoutube(rest) <==> exists k :: HostAt(rest, k)
  {
    var d := FirstDot(rest);
    if HostIsYoutube(rest) {
      if IsPrefix(YoutubeHost, rest) {
        assert rest[0..] == rest;
        assert HostAt(rest, 0);
      } else {
        assert HostAt(rest, d + 1);
      }
    }
    if exists k :: HostAt(rest, k) {
      var k :| HostAt(rest, k);
      if k == 0 {
        assert rest[0..] == rest;
      } else {
        assert d == k - 1;
      }
    }
  }

  /**
   * The filter of the list comprehension: href and class both captured and non-empty, the href on a
   * youtube.com domain, and the thumbnail marker occurring somewhere in the class value.
   */
  predicate AnchorAccepted(a: Anchor): (b: bool)
    ensures b <==>
      && a.href.Some? && a.href.value != ""
      && a.classes.Some? && a.classes.value != ""
      && YoutubeDomain(a.href.value)
      && exists i :: OccursAt(a.classes.value, YoutubeThumbMarker, i)
  {
    && Captured(a.href)
    && Captured(a.classes)
    && YoutubeDomain(a.href.value)
    && (ContainsIff(a.classes.value, YoutubeThumbMarker); Contains(a.classes.value, YoutubeThumbMarker))
  }

  /** `youtube_a_hrefs`: the hrefs of the accepted anchors, in document order. */
  function YoutubeHrefs(anchors: seq<Anchor>): (r: seq<string>)
    ensures |r| <= |anchors|
    ensures forall h :: h in r ==> exists i :: 0 <= i < |anchors| && AnchorAccepted(anchors[i]) && anchors[i].href.value == h
    ensures forall i :: 0 <= i < |anchors| && AnchorAccepted(anchors[i]) ==> anchors[i].href.value in r
    decreases |anchors|
  {
    if anchors == [] then []
    else
      var rest := YoutubeHrefs(anchors[1..]);
      assert forall i :: 0 < i < |anchors| ==> anchors[i] == anchors[1..][i - 1];
      (if AnchorAccepted(anchors[0]) then [anchors[0].href.value] else []) + rest
  }

  /** Anchor order is kept: filtering a concatenation concatenates the filtered parts. */
  lemma {:induction false} YoutubeHrefsAppend(a: seq<Anchor>, b: seq<Anchor>)
    ensures YoutubeHrefs(a + b) == YoutubeHrefs(a) + YoutubeHrefs(b)
    decreases |a|
  {
    if a == [] {
      assert a + b == b;
    } else {
      assert (a + b)[1..] == a[1..] + b;
      YoutubeHrefsAppend(a[1..], b);
    }
  }

  /** One anchor yields exactly its href when accepted and nothing (and no error) otherwise. */
  lemma YoutubeHrefsSingle(a: Anchor)
    ensures YoutubeHrefs([a]) == if AnchorAccepted(a) then [a.href.value] else []
  {
    assert [a][1..] == [];
  }

  // ---------------------------------------------------------------------------------------------
  // The playlist

  /** `[self.url_result(u) for u in urls]`: one bare reference per URL, in order, none filtered. */
  function AsEntries(urls: seq<string>): (r: seq<UrlResult>)
    ensures |r| == |urls|
    ensures forall i :: 0 <= i < |urls| ==> r[i] == UrlResult(urls[i], None)
  {
    seq(|urls|, i requires 0 <= i < |urls| => UrlResult(urls[i], None))
  }

  /**
   * The entries in strategy order: every bucket entry precedes every Facebook entry, which precedes every
   * anchor entry, and the length is the sum of the three counts.
   */
  function PlaylistEntries(buckets: seq<Json>, facebookUrls: seq<string>, anchors: seq<Anchor>): (e: seq<UrlResult>)
    requires WellFormedBuckets(buckets)
    ensures var nb, nf := |BucketEntries(buckets)|, |facebookUrls|;
      && |e| == nb + nf + |YoutubeHrefs(anchors)|
      && e[..nb] == BucketEntries(buckets)
      && (forall i :: nb <= i < nb + nf ==> e[i] == UrlResult(facebookUrls[i - nb], None))
      && (forall i :: nb + nf <= i < |e| ==> e[i] == UrlResult(YoutubeHrefs(anchors)[i - nb - nf], None))
  {
    BucketEntries(buckets) + AsEntries(facebookUrls) + AsEntries(YoutubeHrefs(anchors))
  }

  /** One fragment of each kind gives exactly three entries, in strategy order. */
  lemma OneOfEach(bd: Json, facebookUrl: string, a: Anchor)
    requires WellFormedBucket(bd) && BucketEntry(bd).Some? && AnchorAccepted(a)
    ensures PlaylistEntries([bd], [facebookUrl], [a]) ==
      [BucketEntry(bd).value, UrlResult(facebookUrl, None), UrlResult(a.href.value, None)]
  {
    YoutubeHrefsSingle(a);
    assert [bd][..0] == [];
  }

  /** `_real_extract`: the buckets' loop, then the two `extend`s, then the playlist record. */
  method Extract(playlistId: string, webpage: string, env: Env) returns (playlist: Playlist)
    requires WellFormedBuckets(env.buckets(webpage))
    ensures playlist.id == playlistId
    ensures playlist.title == env.ogTitle(webpage) && playlist.description == env.ogDescription(webpage)
    ensures playlist.entries == PlaylistEntries(env.buckets(webpage), env.facebookUrls(webpage), env.anchors(webpage))
  {
    var allBuckets := env.buckets(webpage);
    var entries: seq<UrlResult> := [];
    for i := 0 to |allBuckets|
      invariant WellFormedBuckets(allBuckets[..i])
      invariant entries == BucketEntries(allBuckets[..i])
    {
      assert allBuckets[..i + 1][..i] == allBuckets[..i];
      var bd := allBuckets[i];
      var video := BucketVideo(bd);
      if !Truthy(video) {
        continue;
      }
      entries := entries + [UrlResult(VideoUrlOf(video), None)];
    }
    assert allBuckets[..|allBuckets|] == allBuckets;

    var facebookUrls := env.facebookUrls(webpage);
    entries := entries + AsEntries(facebookUrls);

    var youtubeHrefs := YoutubeHrefs(env.anchors(webpage));
    entries := entries + AsEntries(youtubeHrefs);

    playlist := Playlist(playlistId, env.ogTitle(webpage), env.ogDescription(webpage), entries);
  }
}
