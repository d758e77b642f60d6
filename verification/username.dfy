/** `resolve_username`: the user to look up, read from `--username`, the
    positional input or, failing both, the interactive prompt (here the line the
    user would type, passed in), and cut out of a profile URL when it is one. */
module Username {
  import opened Wrappers
  import opened Text

  /** `text.startswith("http://") or text.startswith("https://")`. */
  predicate IsHttpUrl(text: string) {
    "http://" <= text || "https://" <= text
  }

  /** `text.rstrip("/").split("/")`. */
  function Segments(text: string): (parts: seq<string>)
    ensures |parts| >= 1
  {
    Split(StripTrailing(text, '/'), '/')
  }

  /** The segment after the first `p` segment when one follows it, else the last
      segment. */
  function ProfileSegment(text: string): (name: string)
    ensures '/' !in name
    ensures var parts := Segments(text);
            "p" in parts[..|parts| - 1] ==>
              exists i :: 0 <= i < |parts| - 1 && parts[i] == "p" && "p" !in parts[..i] && name == parts[i + 1]
    ensures var parts := Segments(text);
            "p" !in parts[..|parts| - 1] ==> name == parts[|parts| - 1]
  {
    var parts := Segments(text);
    match FirstIndex(parts, "p")
    case Some(i) =>
      assert parts[..|parts| - 1][..i] == parts[..i];
      if i + 1 < |parts| then parts[i + 1] else parts[|parts| - 1]
    case None => parts[|parts| - 1]
  }

  /** The raw candidate: `username or raw_input`, replaced by the stripped prompt
      line when it is missing or blank. */
  function Candidate(username: Option<string>, rawInput: Option<string>, prompted: string): string {
    var candidate := if username.Some? && username.value != [] then username else rawInput;
    if candidate.None? || Trim(candidate.value) == [] then Trim(prompted) else candidate.value
  }

  /** Lines 73-82: strip, then cut a profile URL down to its user segment. */
  function UsernameFromText(candidate: string): string {
    var text := Trim(candidate);
    if IsHttpUrl(text) then ProfileSegment(text) else text
  }

  /** `resolve_username(username, raw_input)` with the prompt answered by `prompted`:
      plain text comes back stripped, a URL gives one path segment. */
  function ResolveUsername(username: Option<string>, rawInput: Option<string>, prompted: string): (name: string)
    ensures var text := Trim(Candidate(username, rawInput, prompted));
            !IsHttpUrl(text) ==> name == text
    ensures var text := Trim(Candidate(username, rawInput, prompted));
            IsHttpUrl(text) ==> '/' !in name && name == ProfileSegment(text)
  {
    UsernameFromText(Candidate(username, rawInput, prompted))
  }

  /** `"https://" + host + "/p/" + name` followed by any number of slashes. */
  function ProfileUrl(secure: bool, host: string, name: string, slashes: nat): string {
    (if secure then "https:" else "http:") + "//" + host + "/p/" + name + Repeat('/', slashes)
  }

  /** Stripping trailing slashes undoes appending them to text not ending in one. */
  lemma {:induction false} StripTrailingRepeat(base: string, n: nat)
    requires base != [] && base[|base| - 1] != '/'
    ensures StripTrailing(base + Repeat('/', n), '/') == base
  {
    if n > 0 {
      var s := base + Repeat('/', n);
      assert s[|s| - 1] == '/';
      assert s[..|s| - 1] == base + Repeat('/', n - 1);
      StripTrailingRepeat(base, n - 1);
    } else {
      assert base + Repeat('/', 0) == base;
    }
  }

  /** A profile URL is already stripped and starts with an HTTP scheme. */
  lemma ProfileUrlIsUrl(secure: bool, host: string, name: string, slashes: nat)
    requires name != [] && !IsSpace(name[|name| - 1])
    ensures var url := ProfileUrl(secure, host, name, slashes);
            Trim(url) == url && IsHttpUrl(url)
  {
    var scheme := if secure then "https:" else "http:";
    var url := ProfileUrl(secure, host, name, slashes);
    var base := scheme + "//" + host + "/p/" + name;
    assert url == base + Repeat('/', slashes);
    assert url[0] == 'h';
    assert url[|url| - 1] == (if slashes > 0 then '/' else name[|name| - 1]);
    TrimKeeps(url);
    assert url[..|scheme| + 2] == scheme + "//";
  }

  /** The path segments of a profile URL are the scheme, an empty segment, the
      host, `p` and the name. */
  lemma ProfileUrlSegments(secure: bool, host: string, name: string, slashes: nat)
    requires '/' !in host
    requires name != [] && '/' !in name
    ensures Segments(ProfileUrl(secure, host, name, slashes))
            == [if secure then "https:" else "http:", "", host, "p", name]
  {
    var scheme := if secure then "https:" else "http:";
    var url := ProfileUrl(secure, host, name, slashes);
    var base := scheme + "//" + host + "/p/" + name;
    assert url == base + Repeat('/', slashes);
    StripTrailingRepeat(base, slashes);
    var parts := [scheme, "", host, "p", name];
    assert Join(parts, '/') == base by {
      assert Join(parts[4..], '/') == name;
      assert Join(parts[3..], '/') == "p/" + name;
      assert Join(parts[2..], '/') == host + "/p/" + name;
      assert Join(parts[1..], '/') == "/" + host + "/p/" + name;
    }
    assert forall i :: 0 <= i < |parts| ==> '/' !in parts[i];
    SplitJoin(parts, '/');
  }

  /** A profile URL gives back the user name it was built from, whatever the
      scheme, host and number of trailing slashes. */
  lemma ProfileUrlRoundTrip(secure: bool, host: string, name: string, slashes: nat, rawInput: Option<string>, prompted: string)
    requires '/' !in host && host != "p"
    requires name != [] && '/' !in name && !IsSpace(name[|name| - 1])
    ensures ResolveUsername(Some(ProfileUrl(secure, host, name, slashes)), rawInput, prompted) == name
  {
    var url := ProfileUrl(secure, host, name, slashes);
    ProfileUrlIsUrl(secure, host, name, slashes);
    ProfileUrlSegments(secure, host, name, slashes);
    var parts := Segments(url);
    assert parts[..3] == [parts[0], "", host];
    FirstIndexAt(parts, "p", 3);
    assert Candidate(Some(url), rawInput, prompted) == url;
  }

  /** Text that is not a URL comes back stripped and otherwise untouched. */
  lemma PlainNameKept(u: string, rawInput: Option<string>, prompted: string)
    requires Trim(u) != [] && !IsHttpUrl(Trim(u))
    ensures ResolveUsername(Some(u), rawInput, prompted) == Trim(u)
  {
  }

  /** A non-blank `--username` decides alone; an empty one counts as absent; a
      whitespace-only one is truthy, so the positional input is NOT consulted and
      the prompt is used instead. */
  lemma UsernamePrecedence(u: string, rawInput: Option<string>, prompted: string)
    ensures Trim(u) != [] ==> ResolveUsername(Some(u), rawInput, prompted) == UsernameFromText(u)
    ensures ResolveUsername(Some(""), rawInput, prompted) == ResolveUsername(None, rawInput, prompted)
    ensures u != [] && Trim(u) == [] ==>
              ResolveUsername(Some(u), rawInput, prompted) == UsernameFromText(Trim(prompted))
  {
  }
}
