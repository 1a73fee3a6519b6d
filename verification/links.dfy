/**
 * The string helpers of the popup card: toSafeHref, normalizeTel and escapeAttr of
 * docs/poi.js, and isSafeHref and escapeAttr of poi.js (the two escapeAttr are the same
 * function). Each regular expression is written out as the matcher it stands for.
 */
module Links {
  import opened Text

  // ---- toSafeHref (docs/poi.js) ----

  /** The pattern /^https?:\/\//i, written as its matcher: "http", an optional "s", then "://". */
  predicate MatchesHttpScheme(url: string) {
    StartsWithCI(url, "http") &&
    var rest := if |url| > 4 && LowerAscii(url[4]) == 's' then url[5..] else url[4..];
    StartsWithCI(rest, "://")
  }

  /** The scheme test means: the url starts with http:// or https://, ignoring ASCII case. */
  lemma HttpSchemeMeaning(url: string)
    ensures MatchesHttpScheme(url) <==> StartsWithCI(url, "http://") || StartsWithCI(url, "https://")
  {
    if StartsWithCI(url, "https://") {
      assert LowerAscii(url[4]) == 's';
      assert url[5..][..3] == url[5..8];
    }
    if MatchesHttpScheme(url) && |url| > 4 && LowerAscii(url[4]) == 's' {
      assert forall k :: 0 <= k < 3 ==> url[5..][k] == url[5 + k];
    }
    if MatchesHttpScheme(url) && !(|url| > 4 && LowerAscii(url[4]) == 's') {
      assert forall k :: 0 <= k < 3 ==> url[4..][k] == url[4 + k];
    }
  }

  /** toSafeHref: the trimmed url, with https:// put in front unless it already has an http(s) scheme. */
  function ToSafeHref(s: string): (h: string)
    ensures MatchesHttpScheme(h)
    ensures Trimmed(h)
    ensures h == Trim(s) || h == "https://" + Trim(s)
  {
    var url := Trim(s);
    if MatchesHttpScheme(url) then url
    else
      HttpsPrefixed(url);
      "https://" + url
  }

  /** Putting https:// in front of a trimmed url gives a trimmed url with an http(s) scheme. */
  lemma HttpsPrefixed(url: string)
    requires Trimmed(url)
    ensures MatchesHttpScheme("https://" + url) && Trimmed("https://" + url)
  {
    var h := "https://" + url;
    assert h[..8] == "https://";
    HttpSchemeMeaning(h);
    assert |url| > 0 ==> h[|h| - 1] == url[|url| - 1];
  }

  /** toSafeHref is idempotent. */
  lemma ToSafeHrefIdempotent(s: string)
    ensures ToSafeHref(ToSafeHref(s)) == ToSafeHref(s)
  {
    TrimFixed(ToSafeHref(s));
  }

  /** An href that already has an http or https scheme is only trimmed. */
  lemma ToSafeHrefKeepsScheme(s: string)
    requires StartsWithCI(Trim(s), "http://") || StartsWithCI(Trim(s), "https://")
    ensures ToSafeHref(s) == Trim(s)
  {
    HttpSchemeMeaning(Trim(s));
  }

  /** An href without an http or https scheme is trimmed and receives https:// in front. */
  lemma ToSafeHrefAddsScheme(s: string)
    requires !StartsWithCI(Trim(s), "http://") && !StartsWithCI(Trim(s), "https://")
    ensures ToSafeHref(s) == "https://" + Trim(s)
  {
    HttpSchemeMeaning(Trim(s));
  }

  // ---- normalizeTel (docs/poi.js) ----

  /** The characters /[^\d+]/g keeps: ASCII digits and '+'. */
  predicate IsTelChar(c: char) {
    '0' <= c <= '9' || c == '+'
  }

  /** The result of normalizeTel, an object with a single field. */
  datatype Tel = Tel(raw: string)

  function TelChars(s: string): (r: string)
    ensures |r| <= |s|
    ensures forall k :: 0 <= k < |r| ==> IsTelChar(r[k])
  {
    if s == [] then [] else (if IsTelChar(s[0]) then [s[0]] else []) + TelChars(s[1..])
  }

  /** normalizeTel: the phone string with everything but digits and '+' removed. */
  function NormalizeTel(s: string): (t: Tel)
    ensures forall k :: 0 <= k < |t.raw| ==> IsTelChar(t.raw[k])
  {
    Tel(TelChars(s))
  }

  /** Filtering distributes over concatenation, so the kept characters stay in their order. */
  lemma {:induction false} TelCharsAppend(a: string, b: string)
    ensures TelChars(a + b) == TelChars(a) + TelChars(b)
  {
    if a == [] {
      assert a + b == b;
    } else {
      assert (a + b)[1..] == a[1..] + b;
      TelCharsAppend(a[1..], b);
    }
  }

  /** Every digit and '+' of the input is kept, as often as it occurs. */
  lemma {:induction false} TelCharsKeepsAll(s: string, c: char)
    requires IsTelChar(c)
    ensures multiset(TelChars(s))[c] == multiset(s)[c]
  {
    if s != [] {
      assert s == [s[0]] + s[1..];
      TelCharsKeepsAll(s[1..], c);
    }
  }

  /** A string of digits and '+' is left as it is, so normalizeTel(raw).raw == raw. */
  lemma {:induction false} TelCharsFixed(s: string)
    requires forall k :: 0 <= k < |s| ==> IsTelChar(s[k])
    ensures TelChars(s) == s
  {
    if s != [] {
      TelCharsFixed(s[1..]);
    }
  }

  lemma NormalizeTelIdempotent(s: string)
    ensures NormalizeTel(NormalizeTel(s).raw) == NormalizeTel(s)
  {
    TelCharsFixed(NormalizeTel(s).raw);
  }

  // ---- escapeAttr (docs/poi.js and poi.js) ----

  /** escapeAttr: every double quote replaced by the entity &quot;. */
  function EscapeAttr(s: string): (r: string)
    ensures '"' !in r
    ensures |r| >= |s|
  {
    if s == [] then [] else (if s[0] == '"' then "&quot;" else [s[0]]) + EscapeAttr(s[1..])
  }

  /** A string without double quotes is its own escape, so escapeAttr is idempotent. */
  lemma {:induction false} EscapeAttrFixed(s: string)
    requires '"' !in s
    ensures EscapeAttr(s) == s
  {
    if s != [] {
      assert s[0] != '"';
      EscapeAttrFixed(s[1..]);
    }
  }

  lemma EscapeAttrIdempotent(s: string)
    ensures EscapeAttr(EscapeAttr(s)) == EscapeAttr(s)
  {
    EscapeAttrFixed(EscapeAttr(s));
  }

  /** The inverse transformation: every &quot; turned back into a double quote. */
  function UnescapeQuot(s: string): string {
    if s == [] then []
    else if |s| >= 6 && s[..6] == "&quot;" then "\"" + UnescapeQuot(s[6..])
    else [s[0]] + UnescapeQuot(s[1..])
  }

  /** Escaping loses nothing on strings without '&': unescaping restores them. */
  lemma {:induction false} EscapeAttrRoundTrip(s: string)
    requires '&' !in s
    ensures UnescapeQuot(EscapeAttr(s)) == s
  {
    if s != [] {
      var rest := EscapeAttr(s[1..]);
      EscapeAttrRoundTrip(s[1..]);
      if s[0] == '"' {
        var e := "&quot;" + rest;
        assert e[..6] == "&quot;" && e[6..] == rest;
      } else {
        var e := [s[0]] + rest;
        assert e[1..] == rest && e[0] == s[0] && s[0] != '&';
      }
    }
  }

  // ---- isSafeHref (poi.js) ----

  /** "https?:" — http, an optional s, then a colon. */
  predicate HttpColon(t: string) {
    StartsWithCI(t, "http") && |t| > 4 &&
    (t[4] == ':' || (LowerAscii(t[4]) == 's' && |t| > 5 && t[5] == ':'))
  }

  /** "\.{1,2}\/" — one or two dots, then a slash. */
  predicate DotsSlash(t: string) {
    |t| >= 2 && t[0] == '.' && (t[1] == '/' || (|t| >= 3 && t[1] == '.' && t[2] == '/'))
  }

  /** isSafeHref: the trimmed href matches /^(https?:|mailto:|tel:|\/|\.{1,2}\/)/i. */
  predicate IsSafeHref(href: string) {
    var t := Trim(href);
    HttpColon(t) || StartsWithCI(t, "mailto:") || StartsWithCI(t, "tel:") || StartsWithCI(t, "/") || DotsSlash(t)
  }

  /** "https?:" means: starts with http: or https:, ignoring ASCII case. */
  lemma HttpColonMeaning(t: string)
    ensures HttpColon(t) <==> StartsWithCI(t, "http:") || StartsWithCI(t, "https:")
  {
    if StartsWithCI(t, "http:") {
      assert LowerAscii(t[4]) == ':';
    }
    if StartsWithCI(t, "https:") {
      assert LowerAscii(t[4]) == 's' && LowerAscii(t[5]) == ':';
    }
  }

  /** "\.{1,2}\/" means: starts with ./ or ../ */
  lemma DotsSlashMeaning(t: string)
    ensures DotsSlash(t) <==> StartsWithCI(t, "./") || StartsWithCI(t, "../")
  {
    if StartsWithCI(t, "./") {
      assert LowerAscii(t[0]) == '.' && LowerAscii(t[1]) == '/';
    }
    if StartsWithCI(t, "../") {
      assert LowerAscii(t[0]) == '.' && LowerAscii(t[1]) == '.' && LowerAscii(t[2]) == '/';
    }
  }

  /** isSafeHref holds exactly when the trimmed href starts with one of the seven safe prefixes. */
  lemma IsSafeHrefMeaning(href: string)
    ensures var t := Trim(href);
      IsSafeHref(href) <==>
        StartsWithCI(t, "http:") || StartsWithCI(t, "https:") || StartsWithCI(t, "mailto:") ||
        StartsWithCI(t, "tel:") || StartsWithCI(t, "/") || StartsWithCI(t, "./") || StartsWithCI(t, "../")
  {
    HttpColonMeaning(Trim(href));
    DotsSlashMeaning(Trim(href));
  }

  /** A url with an http(s):// scheme matches the "https?:" alternative of isSafeHref. */
  lemma SchemeHasColon(t: string)
    requires MatchesHttpScheme(t)
    ensures HttpColon(t)
  {
    if LowerAscii(t[4]) == 's' {
      assert LowerAscii(t[5..][0]) == ':';
    } else {
      assert LowerAscii(t[4..][0]) == ':';
    }
  }

  /** Every href toSafeHref produces passes isSafeHref. */
  lemma SafeHrefIsSafe(s: string)
    ensures IsSafeHref(ToSafeHref(s))
  {
    var h := ToSafeHref(s);
    TrimFixed(h);
    SchemeHasColon(h);
  }
}
