/** How the receiving end reads a URL string the relay hands to `fetch`: the cleanup and
    the query and host boundaries of the basic URL parser (section 4.4 of the WHATWG URL
    Standard), restricted to the `https:` URLs the relay builds. */
module UrlView {
  import opened Options
  import opened Text

  predicate IsTabOrNewline(c: char) {
    c == '\t' || c == '\n' || c == '\r'
  }

  /** C0 controls and space, trimmed from both ends of the input. */
  predicate IsTrimmed(c: char) {
    c <= ' '
  }

  /** Characters of a plain domain host: lower-case letters, digits, `.` and `-`. Such a
      host has no userinfo (`@`), no port (`:`) and nothing for the host parser to fold
      to lower case or percent-decode, so the authority text is the host itself. */
  predicate IsHostChar(c: char) {
    'a' <= c <= 'z' || '0' <= c <= '9' || c == '.' || c == '-'
  }

  /** The text after the last `.` of a host: its last label, empty when the host ends
      in `.`. */
  function LastLabel(host: string): (last: string)
    ensures |last| <= |host| && last == host[|host| - |last|..]
    ensures '.' !in last
    ensures |last| < |host| ==> host[|host| - |last| - 1] == '.'
    decreases |host|
  {
    if |host| == 0 || host[|host| - 1] == '.' then []
    else LastLabel(host[..|host| - 1]) + [host[|host| - 1]]
  }

  /** The last label is the text after the last `.`. */
  lemma {:induction false} LastLabelAfterDot(a: string, b: string)
    requires '.' !in b
    ensures LastLabel(a + ['.'] + b) == b
    decreases |b|
  {
    var h := a + ['.'] + b;
    if |b| > 0 {
      assert h[..|h| - 1] == a + ['.'] + b[..|b| - 1];
      LastLabelAfterDot(a, b[..|b| - 1]);
      assert b == b[..|b| - 1] + [b[|b| - 1]];
    } else {
      assert h[|h| - 1] == '.';
    }
  }

  /** A host the parser keeps as a domain, character for character. It is not empty, it
      is made of `IsHostChar` characters, and its last label starts with a letter: a last
      label of digits, or of `0x` and hex digits, would make the parser read the host as
      an IPv4 address. No label starts `xn--`, which domain-to-ASCII would check as
      Punycode. */
  predicate IsDomainHost(host: string) {
    && |host| > 0
    && (forall k :: 0 <= k < |host| ==> IsHostChar(host[k]))
    && |LastLabel(host)| > 0 && 'a' <= LastLabel(host)[0] <= 'z'
    && (forall k :: 0 <= k <= |host| - 4 ==> !PunycodeLabelAt(host, k))
  }

  /** A label starting `xn--` begins at index `k` of the host. */
  predicate PunycodeLabelAt(host: string, k: int)
    requires 0 <= k <= |host| - 4
  {
    (k == 0 || host[k - 1] == '.') && host[k..k + 4] == "xn--"
  }

  /** A host without an `x` has no label that starts `xn--`. */
  lemma NoPunycodeLabel(host: string)
    requires 'x' !in host
    ensures forall k :: 0 <= k <= |host| - 4 ==> !PunycodeLabelAt(host, k)
  {
    forall k | 0 <= k <= |host| - 4
      ensures !PunycodeLabelAt(host, k)
    {
      assert host[k..k + 4][0] == host[k];
    }
  }

  /** `a.b` is a domain host when its characters are host characters, `b` is a label
      starting with a letter, and there is no `x` to start an `xn--` label. */
  lemma DomainOfLabels(a: string, b: string)
    requires forall k :: 0 <= k < |a| ==> IsHostChar(a[k])
    requires forall k :: 0 <= k < |b| ==> IsHostChar(b[k])
    requires |b| > 0 && 'a' <= b[0] <= 'z' && '.' !in b
    requires 'x' !in a && 'x' !in b
    ensures IsDomainHost(a + ['.'] + b)
  {
    var h := a + ['.'] + b;
    LastLabelAfterDot(a, b);
    assert forall k :: 0 <= k < |h| ==> IsHostChar(h[k]) by {
      forall k | 0 <= k < |h|
        ensures IsHostChar(h[k])
      {
        if k < |a| {
          assert h[k] == a[k];
        } else if k > |a| {
          assert h[k] == b[k - |a| - 1];
        }
      }
    }
    assert 'x' !in h;
    NoPunycodeLabel(h);
  }

  /** Characters the parser copies into the query of a special URL unchanged: printable
      ASCII outside the special-query percent-encode set, which holds `"`, `#`, `<`, `>`
      and `'` (and `#` would end the query in any case). */
  predicate IsQueryTextChar(c: char) {
    '!' <= c <= '~' && c != '"' && c != '#' && c != '<' && c != '>' && c != '\''
  }

  /** Characters that end the host of a special URL. */
  predicate EndsHost(c: char) {
    c == '/' || c == '\\' || c == '?' || c == '#'
  }

  function RemoveTabsAndNewlines(s: string): string {
    if |s| == 0 then []
    else if IsTabOrNewline(s[0]) then RemoveTabsAndNewlines(s[1..])
    else [s[0]] + RemoveTabsAndNewlines(s[1..])
  }

  function TrimLeading(s: string): string {
    if |s| > 0 && IsTrimmed(s[0]) then TrimLeading(s[1..]) else s
  }

  function TrimTrailing(s: string): string {
    if |s| > 0 && IsTrimmed(s[|s| - 1]) then TrimTrailing(s[..|s| - 1]) else s
  }

  /** The input string as the parser actually scans it. */
  function Prepare(u: string): string {
    TrimTrailing(TrimLeading(RemoveTabsAndNewlines(u)))
  }

  /** The query of a prepared string: what follows the first `?`, up to a `#`;
      None when there is no `?` or a `#` comes first. */
  function QueryOfPrepared(s: string): Option<string> {
    if '?' !in s then None
    else
      var i := IndexOf(s, '?');
      if '#' in s[..i] then None
      else
        var t := s[i + 1..];
        Some(if '#' in t then t[..IndexOf(t, '#')] else t)
  }

  /** The query string the server receives for the URL `u`. */
  function QueryOf(u: string): Option<string> {
    QueryOfPrepared(Prepare(u))
  }

  function TakeHost(s: string): string {
    if |s| == 0 || EndsHost(s[0]) then [] else [s[0]] + TakeHost(s[1..])
  }

  /** The authority text of an `https:` URL, up to the character that ends it; empty for
      anything else. For an `IsDomainHost` host this is the host the request is sent
      to. */
  function HostOf(u: string): string {
    var s := Prepare(u);
    if |s| >= 8 && s[..8] == "https://" then TakeHost(s[8..]) else ""
  }

  lemma {:induction false} RemoveTabsAndNewlinesAppend(a: string, b: string)
    ensures RemoveTabsAndNewlines(a + b) == RemoveTabsAndNewlines(a) + RemoveTabsAndNewlines(b)
  {
    if |a| > 0 {
      RemoveTabsAndNewlinesAppend(a[1..], b);
      assert (a + b)[1..] == a[1..] + b;
    } else {
      assert a + b == b;
    }
  }

  /** Cleanup only removes characters: what was absent stays absent. */
  lemma {:induction false} RemoveTabsAndNewlinesAbsent(s: string, c: char)
    requires c !in s
    ensures c !in RemoveTabsAndNewlines(s)
  {
    if |s| > 0 {
      RemoveTabsAndNewlinesAbsent(s[1..], c);
    }
  }

  lemma {:induction false} RemoveTabsAndNewlinesClean(s: string)
    requires forall k :: 0 <= k < |s| ==> !IsTabOrNewline(s[k])
    ensures RemoveTabsAndNewlines(s) == s
  {
    if |s| > 0 {
      RemoveTabsAndNewlinesClean(s[1..]);
    }
  }

  /** Trailing trimming never reaches back past a character it does not trim. */
  lemma {:induction false} TrimTrailingAppend(a: string, b: string)
    requires |a| > 0 && !IsTrimmed(a[|a| - 1])
    ensures TrimTrailing(a + b) == a + TrimTrailing(b)
    decreases |b|
  {
    if |b| == 0 {
      assert a + b == a;
    } else if IsTrimmed(b[|b| - 1]) {
      assert (a + b)[..|a + b| - 1] == a + b[..|b| - 1];
      TrimTrailingAppend(a, b[..|b| - 1]);
    }
  }

  /** A string that starts with an untrimmed, clean head is scanned as that head
      followed by the cleaned and trimmed rest. */
  lemma PrepareAfterHead(head: string, rest: string)
    requires |head| > 0 && !IsTrimmed(head[0]) && !IsTrimmed(head[|head| - 1])
    requires forall k :: 0 <= k < |head| ==> !IsTabOrNewline(head[k])
    ensures Prepare(head + rest) == head + TrimTrailing(RemoveTabsAndNewlines(rest))
  {
    RemoveTabsAndNewlinesAppend(head, rest);
    RemoveTabsAndNewlinesClean(head);
    var r := RemoveTabsAndNewlines(rest);
    assert (head + r)[0] == head[0];
    TrimTrailingAppend(head, r);
  }

  /** The host is the text between `https://` and the first character that ends it. */
  lemma {:induction false} TakeHostStopsAt(host: string, c: char, rest: string)
    requires forall k :: 0 <= k < |host| ==> !EndsHost(host[k])
    requires EndsHost(c)
    ensures TakeHost(host + [c] + rest) == host
  {
    if |host| > 0 {
      TakeHostStopsAt(host[1..], c, rest);
      assert (host + [c] + rest)[1..] == host[1..] + [c] + rest;
    }
  }

  /** The query boundaries: with no `?` or `#` before the `?` that follows `head`,
      and the query text `t` ending at the end or at a `#`, the query is `t`. */
  lemma QueryOfPreparedLayout(head: string, t: string, tail: string)
    requires '?' !in head && '#' !in head && '#' !in t
    requires tail == [] || tail[0] == '#'
    ensures QueryOfPrepared(head + "?" + t + tail) == Some(t)
  {
    var s := head + "?" + t + tail;
    assert s == head + ['?'] + (t + tail);
    IndexOfAfterPrefix(head, '?', t + tail);
    assert s[..|head|] == head;
    var u := s[|head| + 1..];
    assert u == t + tail;
    assert IndexOf(s, '?') == |head|;
    assert '#' !in s[..|head|];
    if tail != [] {
      assert u == t + ['#'] + tail[1..];
      IndexOfAfterPrefix(t, '#', tail[1..]);
      assert u[..|t|] == t;
    } else {
      assert u == t;
    }
  }

  /** The host of `https://host/more...` is `host`, whatever follows the base. */
  lemma HostAfterBase(host: string, more: string, rest: string)
    requires IsDomainHost(host)
    requires forall k :: 0 <= k < |more| ==> !IsTrimmed(more[k]) && !IsTabOrNewline(more[k])
    ensures HostOf("https://" + host + ['/'] + more + rest) == host
  {
    var base := "https://" + host + ['/'] + more;
    assert forall k :: 0 <= k < |base| ==> !IsTrimmed(base[k]) && !IsTabOrNewline(base[k]) by {
      forall k | 0 <= k < |base|
        ensures !IsTrimmed(base[k]) && !IsTabOrNewline(base[k])
      {
        if k >= 8 && k < 8 + |host| {
          assert base[k] == host[k - 8];
        } else if k > 8 + |host| {
          assert base[k] == more[k - 9 - |host|];
        }
      }
    }
    PrepareAfterHead(base, rest);
    var tail := TrimTrailing(RemoveTabsAndNewlines(rest));
    var s := base + tail;
    assert s[..8] == "https://";
    assert s[8..] == host + ['/'] + (more + tail);
    TakeHostStopsAt(host, '/', more + tail);
  }

  /** Cleanup of the part after the base: only the path and the tail can lose characters. */
  lemma CleanAfterBase(path: string, t: string, tail: string)
    requires forall k :: 0 <= k < |t| ==> !IsTabOrNewline(t[k])
    ensures RemoveTabsAndNewlines(path + "?" + t + tail)
         == RemoveTabsAndNewlines(path) + "?" + t + RemoveTabsAndNewlines(tail)
  {
    assert path + "?" + t + tail == path + ("?" + (t + tail));
    RemoveTabsAndNewlinesAppend(path, "?" + (t + tail));
    RemoveTabsAndNewlinesAppend("?", t + tail);
    RemoveTabsAndNewlinesAppend(t, tail);
    RemoveTabsAndNewlinesClean(t);
    assert RemoveTabsAndNewlines("?") == "?";
  }

  /** What is left of a tail that is empty or starts a fragment. */
  function TrimmedTail(tail: string): string {
    if tail == [] then [] else "#" + TrimTrailing(RemoveTabsAndNewlines(tail[1..]))
  }

  /** Trimming the end leaves the query and the `#` that closes it in place. */
  lemma TrimAfterQuery(a: string, tail: string)
    requires || (tail == [] && |a| > 0 && !IsTrimmed(a[|a| - 1]))
             || (|tail| > 0 && tail[0] == '#')
    ensures TrimTrailing(a + RemoveTabsAndNewlines(tail)) == a + TrimmedTail(tail)
  {
    if tail == [] {
      TrimTrailingAppend(a, []);
      assert a + [] == a;
    } else {
      TrimAfterFragment(a, tail);
    }
  }

  lemma TrimAfterFragment(a: string, tail: string)
    requires |tail| > 0 && tail[0] == '#'
    ensures TrimTrailing(a + RemoveTabsAndNewlines(tail)) == a + TrimmedTail(tail)
  {
    var after := RemoveTabsAndNewlines(tail[1..]);
    RemoveTabsAndNewlinesAppend([tail[0]], tail[1..]);
    assert tail == [tail[0]] + tail[1..];
    assert RemoveTabsAndNewlines([tail[0]]) == "#";
    var h := a + "#";
    assert !IsTrimmed(h[|h| - 1]);
    TrimTrailingAppend(h, after);
    assert a + RemoveTabsAndNewlines(tail) == h + after;
    assert a + TrimmedTail(tail) == h + TrimTrailing(after);
  }

  /** The scanned form of a clean base, a path, `?`, the text `t` and a tail. */
  lemma PrepareLayout(base: string, path: string, t: string, tail: string)
    requires |base| > 0
    requires forall k :: 0 <= k < |base| ==> !IsTrimmed(base[k]) && !IsTabOrNewline(base[k])
    requires forall k :: 0 <= k < |t| ==> !IsTabOrNewline(t[k])
    requires || (tail == [] && (|t| == 0 || !IsTrimmed(t[|t| - 1])))
             || (|tail| > 0 && tail[0] == '#')
    ensures Prepare(base + path + "?" + t + tail)
         == (base + RemoveTabsAndNewlines(path)) + "?" + t + TrimmedTail(tail)
  {
    PrepareAfterClean(base, path, t, tail);
    var a := RemoveTabsAndNewlines(path) + "?" + t;
    LastOfQuery(RemoveTabsAndNewlines(path), t);
    TrimAfterQuery(a, tail);
    Regroup(base, RemoveTabsAndNewlines(path) + "?", t, TrimmedTail(tail));
    Regroup(base, RemoveTabsAndNewlines(path), "?", []);
  }

  /** Before the end is trimmed: the clean base and `?t` are kept, the rest is cleaned. */
  lemma PrepareAfterClean(base: string, path: string, t: string, tail: string)
    requires |base| > 0
    requires forall k :: 0 <= k < |base| ==> !IsTrimmed(base[k]) && !IsTabOrNewline(base[k])
    requires forall k :: 0 <= k < |t| ==> !IsTabOrNewline(t[k])
    ensures Prepare(base + path + "?" + t + tail)
         == base + TrimTrailing(RemoveTabsAndNewlines(path) + "?" + t + RemoveTabsAndNewlines(tail))
  {
    var rest := path + "?" + t + tail;
    assert base + path + "?" + t + tail == base + rest;
    PrepareAfterHead(base, rest);
    CleanAfterBase(path, t, tail);
  }

  /** The last character of `p?t` is the `?` or the last of `t`. */
  lemma LastOfQuery(p: string, t: string)
    ensures var a := p + "?" + t; a[|a| - 1] == if |t| == 0 then '?' else t[|t| - 1]
  {
  }

  /** The query the server sees when a clean base is followed by a path free of `?` and
      `#`, a `?`, the text `t`, and either nothing or a fragment. */
  lemma QueryAfterCleanBase(base: string, path: string, t: string, tail: string)
    requires |base| > 0
    requires forall k :: 0 <= k < |base| ==>
      !IsTrimmed(base[k]) && !IsTabOrNewline(base[k]) && base[k] != '?' && base[k] != '#'
    requires '?' !in path && '#' !in path
    requires forall k :: 0 <= k < |t| ==> IsQueryTextChar(t[k])
    requires tail == [] || tail[0] == '#'
    ensures QueryOf(base + path + "?" + t + tail) == Some(t)
  {
    PrepareLayout(base, path, t, tail);
    var p := RemoveTabsAndNewlines(path);
    RemoveTabsAndNewlinesAbsent(path, '?');
    RemoveTabsAndNewlinesAbsent(path, '#');
    assert '?' !in base + p && '#' !in base + p;
    QueryOfPreparedLayout(base + p, t, TrimmedTail(tail));
  }

  /** The query of `https://host/more` + `path?t`, then nothing or a fragment, is `t`:
      the host is a domain the parser accepts, `more` and `path` hold neither `?` nor
      `#`, and `t` holds only characters the parser copies unchanged. */
  lemma QueryOfAfterBase(host: string, more: string, path: string, t: string, tail: string)
    requires IsDomainHost(host)
    requires forall k :: 0 <= k < |more| ==>
      !IsTrimmed(more[k]) && !IsTabOrNewline(more[k]) && more[k] != '?' && more[k] != '#'
    requires '?' !in path && '#' !in path
    requires forall k :: 0 <= k < |t| ==> IsQueryTextChar(t[k])
    requires tail == [] || tail[0] == '#'
    ensures QueryOf("https://" + host + ['/'] + more + path + "?" + t + tail) == Some(t)
  {
    var base := "https://" + host + ['/'] + more;
    forall k | 0 <= k < |base|
      ensures !IsTrimmed(base[k]) && !IsTabOrNewline(base[k]) && base[k] != '?' && base[k] != '#'
    {
      if k >= 8 && k < 8 + |host| {
        assert base[k] == host[k - 8];
      } else if k > 8 + |host| {
        assert base[k] == more[k - 9 - |host|];
      }
    }
    QueryAfterCleanBase(base, path, t, tail);
  }
}
