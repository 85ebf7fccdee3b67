/** The QR-code clean-up of the validator, `extract_and_clean_qr_data`
    (authenticator/auther.py:50-69): the payload of the first usable QR
    image, reduced to its last two path segments joined by `:`. */
module QrCode {
  import opened Wrappers
  import opened Document

  // ---------------------------------------------------------------------
  // `str.strip('/')`
  // ---------------------------------------------------------------------

  /** How many slashes `s` starts with. */
  function LeadingSlashes(s: string): (n: nat)
    ensures n <= |s|
    ensures forall i :: 0 <= i < n ==> s[i] == '/'
    ensures n < |s| ==> s[n] != '/'
  {
    if |s| > 0 && s[0] == '/' then 1 + LeadingSlashes(s[1..]) else 0
  }

  /** `s.rstrip('/')`. */
  function DropTrailing(s: string): (r: string)
    ensures |r| <= |s| && r == s[..|r|]
    ensures forall i :: |r| <= i < |s| ==> s[i] == '/'
    ensures |r| > 0 ==> r[|r| - 1] != '/'
  {
    if |s| > 0 && s[|s| - 1] == '/' then DropTrailing(s[..|s| - 1]) else s
  }

  /** `s.strip('/')`: the part of `s` between its leading and its
      trailing slashes. */
  function StripSlashes(s: string): (r: string)
    ensures var n := LeadingSlashes(s);
      && n + |r| <= |s| && r == s[n..n + |r|]
      && forall i :: n + |r| <= i < |s| ==> s[i] == '/'
    ensures |r| > 0 ==> r[0] != '/' && r[|r| - 1] != '/'
  {
    var n := LeadingSlashes(s);
    var r := DropTrailing(s[n..]);
    assert s[n..][..|r|] == s[n..n + |r|];
    r
  }

  /** Stripping leaves a text without slashes at its ends unchanged. */
  lemma StripSlashesNoop(s: string)
    requires |s| > 0 && s[0] != '/' && s[|s| - 1] != '/'
    ensures StripSlashes(s) == s
  {
    assert s[0..] == s;
  }

  /** Trailing slashes are dropped. */
  lemma StripTrailingSlash(s: string)
    requires |s| > 0 && s[0] != '/' && s[|s| - 1] != '/'
    ensures StripSlashes(s + "/") == s
  {
    var v := s + "/";
    assert v[0..] == v;
    assert v[..|v| - 1] == s;
  }

  // ---------------------------------------------------------------------
  // `str.split(sep)`
  // ---------------------------------------------------------------------

  /** `s.split(sep)` for a one-character separator: the pieces between
      separators, empty pieces included, so never an empty list. */
  function SplitOn(s: string, sep: char): (parts: seq<string>)
    ensures |parts| >= 1
    ensures forall i :: 0 <= i < |parts| ==> sep !in parts[i]
  {
    if |s| == 0 then [""]
    else
      var rest := SplitOn(s[1..], sep);
      if s[0] == sep then [""] + rest
      else [[s[0]] + rest[0]] + rest[1..]
  }

  /** `sep.join(parts)`. */
  function JoinWith(parts: seq<string>, sep: char): string
    requires |parts| >= 1
  {
    if |parts| == 1 then parts[0]
    else parts[0] + [sep] + JoinWith(parts[1..], sep)
  }

  /** Joining the pieces gives back the text. */
  lemma {:induction false} SplitJoin(s: string, sep: char)
    ensures JoinWith(SplitOn(s, sep), sep) == s
  {
    if |s| > 0 {
      var rest := SplitOn(s[1..], sep);
      SplitJoin(s[1..], sep);
      if s[0] == sep {
        assert ([""] + rest)[1..] == rest;
      } else {
        var parts := [[s[0]] + rest[0]] + rest[1..];
        if |rest| > 1 {
          assert parts[1..] == rest[1..];
          assert JoinWith(rest, sep) == rest[0] + [sep] + JoinWith(rest[1..], sep);
        }
      }
    }
  }

  /** Splitting a text made of separator-free pieces gives the pieces back. */
  lemma {:induction false} JoinSplit(parts: seq<string>, sep: char)
    requires |parts| >= 1
    requires forall i :: 0 <= i < |parts| ==> sep !in parts[i]
    ensures SplitOn(JoinWith(parts, sep), sep) == parts
  {
    if |parts| == 1 {
      SplitSepFree(parts[0], sep);
    } else {
      JoinSplit(parts[1..], sep);
      SplitSepFree(parts[0], sep);
      SplitAppend(parts[0], JoinWith(parts[1..], sep), sep);
    }
  }

  /** A text without the separator is a single piece. */
  lemma {:induction false} SplitSepFree(s: string, sep: char)
    requires sep !in s
    ensures SplitOn(s, sep) == [s]
  {
    if |s| > 0 {
      SplitSepFree(s[1..], sep);
      assert [s[0]] + s[1..] == s;
    }
  }

  /** A separator between two texts separates their pieces. */
  lemma {:induction false} SplitAppend(x: string, y: string, sep: char)
    ensures SplitOn(x + [sep] + y, sep) == SplitOn(x, sep) + SplitOn(y, sep)
  {
    var s := x + [sep] + y;
    if |x| == 0 {
      assert s[1..] == y;
    } else {
      assert s[1..] == x[1..] + [sep] + y;
      SplitAppend(x[1..], y, sep);
    }
  }

  /** There are at least two pieces exactly when the separator occurs. */
  lemma {:induction false} SplitCountsSeparator(s: string, sep: char)
    ensures |SplitOn(s, sep)| >= 2 <==> sep in s
  {
    if sep in s {
      var k :| 0 <= k < |s| && s[k] == sep;
      assert s == s[..k] + [sep] + s[k + 1..];
      SplitAppend(s[..k], s[k + 1..], sep);
    } else {
      SplitSepFree(s, sep);
    }
  }

  // ---------------------------------------------------------------------
  // The cleaned code
  // ---------------------------------------------------------------------

  /** The clean-up of one payload (authenticator/auther.py:59-63): strip
      slashes at both ends, split on `/`, and join the last two pieces with
      `:`; `None` when there are fewer than two pieces. */
  function CleanPayload(url: string): (r: Option<string>)
    ensures r.Some? ==> '/' !in r.value
  {
    var parts := SplitOn(StripSlashes(url), '/');
    if |parts| >= 2 then Some(parts[|parts| - 2] + ":" + parts[|parts| - 1])
    else None
  }

  /** A payload yields a code exactly when a slash remains once the slashes
      at its ends are stripped. */
  lemma CleanPayloadNoneIff(url: string)
    ensures CleanPayload(url).None? <==> '/' !in StripSlashes(url)
  {
    SplitCountsSeparator(StripSlashes(url), '/');
  }

  /** Two segments `a/b` clean to `a:b`. */
  lemma CleanTwoSegments(url: string, a: string, b: string)
    requires StripSlashes(url) == a + "/" + b
    requires '/' !in a && '/' !in b
    ensures CleanPayload(url) == Some(a + ":" + b)
  {
    SplitSepFree(a, '/');
    SplitSepFree(b, '/');
    SplitAppend(a, b, '/');
  }

  /** The last two of several segments `p/a/b` clean to `a:b`, whatever
      the prefix `p` holds. */
  lemma CleanLastTwoSegments(url: string, p: string, a: string, b: string)
    requires StripSlashes(url) == p + "/" + a + "/" + b
    requires '/' !in a && '/' !in b
    ensures CleanPayload(url) == Some(a + ":" + b)
  {
    var ps := SplitOn(p, '/');
    SplitSepFree(a, '/');
    SplitSepFree(b, '/');
    assert p + "/" + a + "/" + b == p + ['/'] + (a + "/" + b);
    SplitAppend(p, a + "/" + b, '/');
    SplitAppend(a, b, '/');
    assert SplitOn(StripSlashes(url), '/') == ps + [a, b];
  }

  /** A sample payload cleans to `acme:998877`. */
  lemma CleanSamplePayload()
    ensures CleanPayload("https://example.com" + "/acme/998877") == Some("acme:998877")
  {
    var p := "https://example.com";
    var u := p + "/acme/998877";
    StripSlashesNoop(u);
    assert u == p + "/" + "acme" + "/" + "998877";
    CleanLastTwoSegments(u, p, "acme", "998877");
    assert "acme" + ":" + "998877" == "acme:998877";
  }

  /** Appending a slash adds to the leading run only when the text is all
      slashes. */
  lemma {:induction false} LeadingSlashesAppend(s: string)
    ensures LeadingSlashes(s + "/") == if LeadingSlashes(s) == |s| then |s| + 1 else LeadingSlashes(s)
  {
    if |s| > 0 && s[0] == '/' {
      assert (s + "/")[1..] == s[1..] + "/";
      LeadingSlashesAppend(s[1..]);
    }
  }

  /** A trailing slash on the payload is stripped away with the others. */
  lemma StripAppendSlash(url: string)
    ensures StripSlashes(url + "/") == StripSlashes(url)
  {
    var n := LeadingSlashes(url);
    var v := url + "/";
    LeadingSlashesAppend(url);
    if n == |url| {
      assert StripSlashes(url) == DropTrailing(url[n..]);
      assert v[n + 1..] == "";
    } else {
      assert v[n..] == url[n..] + "/";
      assert v[n..][..|v[n..]| - 1] == url[n..];
    }
  }

  /** A trailing slash on the payload changes no code. */
  lemma CleanTrailingSlash(url: string)
    ensures CleanPayload(url + "/") == CleanPayload(url)
  {
    StripAppendSlash(url);
  }

  // ---------------------------------------------------------------------
  // The first usable QR image
  // ---------------------------------------------------------------------

  /** What one `imagenes` entry contributes: a code when it is a QR image
      whose payload is a non-empty string with a slash inside it. */
  function Candidate(e: ImageEntry): (r: Option<string>)
    ensures r.Some? <==>
      e.isQr && e.qrData.Some? && e.qrData.value != "" && '/' in StripSlashes(e.qrData.value)
  {
    if e.isQr && e.qrData.Some? && e.qrData.value != "" then
      CleanPayloadNoneIff(e.qrData.value);
      CleanPayload(e.qrData.value)
    else None
  }

  /** `extract_and_clean_qr_data`: the code of the first entry that yields
      one; entries that do not are skipped, and `None` when none does. */
  function CleanQrCode(images: seq<ImageEntry>): (r: Option<string>)
    ensures r.Some? ==> '/' !in r.value
  {
    if |images| == 0 then None
    else if Candidate(images[0]).Some? then Candidate(images[0])
    else CleanQrCode(images[1..])
  }

  /** There is no code exactly when no entry yields one. */
  lemma {:induction false} CleanQrCodeNoneIff(images: seq<ImageEntry>)
    ensures CleanQrCode(images).None? <==>
      forall i :: 0 <= i < |images| ==> Candidate(images[i]).None?
  {
    if |images| > 0 && Candidate(images[0]).None? {
      var rest := images[1..];
      CleanQrCodeNoneIff(rest);
      assert forall i :: 1 <= i < |images| ==> images[i] == rest[i - 1];
    }
  }

  /** No entry before index `i` yields a code. */
  predicate NoneBefore(images: seq<ImageEntry>, i: nat)
    requires i <= |images|
  {
    forall j :: 0 <= j < i ==> Candidate(images[j]).None?
  }

  /** A code comes from some entry, and every entry before it yields
      nothing. */
  lemma {:induction false} CleanQrCodeFirst(images: seq<ImageEntry>)
    requires CleanQrCode(images).Some?
    ensures exists i :: (0 <= i < |images| && CleanQrCode(images) == Candidate(images[i])
      && NoneBefore(images, i))
  {
    if Candidate(images[0]).None? {
      var rest := images[1..];
      assert CleanQrCode(images) == CleanQrCode(rest);
      CleanQrCodeFirst(rest);
      var i :| 0 <= i < |rest| && CleanQrCode(rest) == Candidate(rest[i]) && NoneBefore(rest, i);
      ShiftNoneBefore(images, i);
    } else {
      assert NoneBefore(images, 0);
    }
  }

  /** A first entry that yields nothing extends a run of such entries. */
  lemma ShiftNoneBefore(images: seq<ImageEntry>, i: nat)
    requires i + 1 <= |images| && Candidate(images[0]).None?
    requires NoneBefore(images[1..], i)
    ensures NoneBefore(images, i + 1)
  {
    forall j | 0 <= j < i + 1
      ensures Candidate(images[j]).None?
    {
      if j > 0 {
        assert images[j] == images[1..][j - 1];
      }
    }
  }

  /** A document without QR images has no code. */
  lemma NoQrNoCode(images: seq<ImageEntry>)
    requires forall i :: 0 <= i < |images| ==> !images[i].isQr
    ensures CleanQrCode(images) == None
  {
    CleanQrCodeNoneIff(images);
  }
}
