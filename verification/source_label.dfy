/**
 * The display label derived from an article's URL (`extractSourceFromUrl`).
 * The WHATWG URL parser is not modelled: its outcome is the `hostname`
 * argument, `None` standing for a parse that throws.
 */
module SourceLabel {
  import opened Wrappers

  const WwwPrefix: string := "www."
  const Dot: char := '.'

  predicate StartsWith(s: string, prefix: string) {
    |prefix| <= |s| && s[..|prefix|] == prefix
  }

  /** Removes one leading `www.`, if present. */
  function StripWww(host: string): (h: string)
    ensures StartsWith(host, WwwPrefix) ==> host == WwwPrefix + h
    ensures !StartsWith(host, WwwPrefix) ==> h == host
  {
    if StartsWith(host, WwwPrefix) then host[|WwwPrefix|..] else host
  }

  /** Position of the first `c` in `s`. */
  function FirstIndex(s: string, c: char): (i: nat)
    requires c in s
    ensures i < |s| && s[i] == c
    ensures c !in s[..i]
  {
    if s[0] == c then 0
    else
      var j := FirstIndex(s[1..], c);
      assert s[..j + 1] == [s[0]] + s[1..][..j];
      j + 1
  }

  /** JavaScript's `s.split(sep)` for a one-character separator: never empty, and "" splits to [""]. */
  function Split(s: string, sep: char): (parts: seq<string>)
    ensures |parts| >= 1
    ensures forall k :: 0 <= k < |parts| ==> sep !in parts[k]
    decreases |s|
  {
    if sep !in s then [s]
    else
      var i := FirstIndex(s, sep);
      [s[..i]] + Split(s[i + 1..], sep)
  }

  /** JavaScript's `parts.join(sep)`. */
  function Join(parts: seq<string>, sep: char): string
    requires |parts| >= 1
  {
    if |parts| == 1 then parts[0] else parts[0] + [sep] + Join(parts[1..], sep)
  }

  /** Splitting loses nothing: joining the pieces back gives the original text. */
  lemma {:induction false} SplitJoin(s: string, sep: char)
    ensures Join(Split(s, sep), sep) == s
    decreases |s|
  {
    if sep in s {
      var i := FirstIndex(s, sep);
      var rest := Split(s[i + 1..], sep);
      assert Split(s, sep) == [s[..i]] + rest;
      assert ([s[..i]] + rest)[1..] == rest;
      SplitJoin(s[i + 1..], sep);
      assert s == s[..i] + [sep] + s[i + 1..];
    }
  }

  /** There are at least two pieces exactly when the separator occurs. */
  lemma SplitCount(s: string, sep: char)
    ensures |Split(s, sep)| >= 2 <==> sep in s
  {
  }

  /** `extractSourceFromUrl`, given the hostname the URL parser produced (or `None` if it threw). */
  function ExtractSourceFromUrl(hostname: Option<string>): (name: string)
    ensures hostname.None? ==> name == ""
    ensures Dot !in name
    ensures hostname.Some? ==> name <= StripWww(hostname.value)
    ensures hostname.Some? && Dot in StripWww(hostname.value) ==>
              name == StripWww(hostname.value)[..FirstIndex(StripWww(hostname.value), Dot)]
    ensures hostname.Some? && Dot !in StripWww(hostname.value) ==> name == StripWww(hostname.value)
  {
    match hostname
    case None => ""
    case Some(host) =>
      var h := StripWww(host);
      var parts := Split(h, Dot);
      if |parts| >= 2 then parts[0] else h
  }

  /** Only one `www.` is removed, even when the rest starts with `www.` again. */
  lemma StripWwwOnce(rest: string)
    ensures StripWww(WwwPrefix + rest) == rest
  {
  }

  /** The label is the first piece of the stripped hostname split on dots. */
  lemma LabelIsFirstPiece(host: string)
    ensures ExtractSourceFromUrl(Some(host)) == Split(StripWww(host), Dot)[0]
  {
  }

  /** The first occurrence is the only position with `c` and no earlier `c`. */
  lemma FirstIndexUnique(s: string, c: char, i: nat)
    requires i < |s| && s[i] == c && c !in s[..i]
    ensures FirstIndex(s, c) == i
  {
  }

  /** A hostname whose stripped form has its first dot at `i` yields the text before it. */
  lemma LabelBeforeFirstDot(host: string, rest: string, i: nat)
    requires StripWww(host) == rest
    requires i < |rest| && rest[i] == Dot && Dot !in rest[..i]
    ensures ExtractSourceFromUrl(Some(host)) == rest[..i]
  {
    FirstIndexUnique(rest, Dot, i);
  }

  /** A hostname of the form `www.www.foo.com` yields `www`. */
  lemma DoubleWwwExample()
    ensures ExtractSourceFromUrl(Some("www.www.foo.com")) == "www"
  {
    var rest := "www.foo.com";
    assert "www.www.foo.com" == WwwPrefix + rest;
    StripWwwOnce(rest);
    assert rest[..3] == "www";
    LabelBeforeFirstDot("www.www.foo.com", rest, 3);
  }

  /** `www.example.co.uk` yields `example`: the first remaining label, not the registrable domain. */
  lemma CountryDomainExample()
    ensures ExtractSourceFromUrl(Some("www.example.co.uk")) == "example"
  {
    var rest := "example.co.uk";
    assert "www.example.co.uk" == WwwPrefix + rest;
    StripWwwOnce(rest);
    var name := rest[..7];
    assert name == "example";
    assert forall k :: 0 <= k < |name| ==> name[k] != Dot;
    LabelBeforeFirstDot("www.example.co.uk", rest, 7);
  }

  /** A dotless hostname is returned whole. */
  lemma SingleLabelExample()
    ensures ExtractSourceFromUrl(Some("localhost")) == "localhost"
  {
    var h := "localhost";
    assert h[..|WwwPrefix|][0] == 'l';
    assert forall k :: 0 <= k < |h| ==> h[k] != Dot;
  }
}
