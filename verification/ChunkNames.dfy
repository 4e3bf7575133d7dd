/** Chunk file names (src/legacy_archive.rs): `<YYYY_MMDD>_<agent>_<session>_<chunk>.md`. */
module ChunkNames {
  import opened Text

  const U32_LIMIT: nat := 0x1_0000_0000
  const SESSION_LIMIT: nat := 20

  // Dates

  function DigitsOf(s: string): string { Select(s, IsDigit) }

  function CompactDate(date: string): string {
    var digits := DigitsOf(date);
    if |digits| >= 8 then digits[..4] + "_" + digits[4..8] else ReplaceChar(date, '-', '_')
  }

  function ExpandCompactDate(compact: string): string {
    var digits := DigitsOf(compact);
    if |digits| >= 8 then digits[..4] + "-" + digits[4..6] + "-" + digits[6..8] else compact
  }

  predicate IsIsoDate(d: string) {
    && |d| == 10 && d[4] == '-' && d[7] == '-'
    && AllDigits(d[..4]) && AllDigits(d[5..7]) && AllDigits(d[8..])
  }

  lemma DigitsAround(a: string, sep: char, b: string)
    requires AllDigits(a) && !IsDigit(sep)
    ensures DigitsOf(a + [sep] + b) == a + DigitsOf(b)
  {
    SelectAll(a, IsDigit);
    SelectAppend(a + [sep], b, IsDigit);
    SelectAppend(a, [sep], IsDigit);
  }

  lemma IsoDateDigits(d: string)
    requires IsIsoDate(d)
    ensures DigitsOf(d) == d[..4] + d[5..7] + d[8..]
  {
    assert d == d[..4] + ['-'] + (d[5..7] + ['-'] + d[8..]);
    DigitsAround(d[..4], '-', d[5..7] + ['-'] + d[8..]);
    DigitsAround(d[5..7], '-', d[8..]);
    SelectAll(d[8..], IsDigit);
  }

  /** Expanding a compacted date with eight digits writes those digits as YYYY-MM-DD. */
  lemma ExpandCompactLong(date: string)
    requires |DigitsOf(date)| >= 8
    ensures var ds := DigitsOf(date);
            ExpandCompactDate(CompactDate(date)) == ds[..4] + "-" + ds[4..6] + "-" + ds[6..8]
  {
    var ds := DigitsOf(date);
    DigitsAround(ds[..4], '_', ds[4..8]);
    SelectAll(ds[4..8], IsDigit);
    assert DigitsOf(CompactDate(date)) == ds[..8];
    assert ds[..8][..4] == ds[..4] && ds[..8][4..6] == ds[4..6] && ds[..8][6..8] == ds[6..8];
  }

  lemma {:induction false} ReplaceKeepsDigits(s: string)
    ensures DigitsOf(ReplaceChar(s, '-', '_')) == DigitsOf(s)
  {
    if s != [] {
      ReplaceKeepsDigits(s[1..]);
      assert ReplaceChar(s, '-', '_')[1..] == ReplaceChar(s[1..], '-', '_');
    }
  }

  /** The date round trip, for every string: it returns its input exactly when that is a YYYY-MM-DD
      date, or has fewer than eight digits and no hyphen. */
  lemma DateRoundTrip(date: string)
    ensures ExpandCompactDate(CompactDate(date)) == date
            <==> IsIsoDate(date) || (|DigitsOf(date)| < 8 && '-' !in date)
  {
    var ds := DigitsOf(date);
    if |ds| >= 8 {
      ExpandCompactLong(date);
      var out := ds[..4] + "-" + ds[4..6] + "-" + ds[6..8];
      assert IsIsoDate(out) by {
        assert out[..4] == ds[..4] && out[5..7] == ds[4..6] && out[8..] == ds[6..8];
      }
      if IsIsoDate(date) {
        IsoDateDigits(date);
        assert ds[..4] == date[..4] && ds[4..6] == date[5..7] && ds[6..8] == date[8..];
        assert date == date[..4] + "-" + date[5..7] + "-" + date[8..];
      }
    } else {
      ReplaceKeepsDigits(date);
      var out := ReplaceChar(date, '-', '_');
      if IsIsoDate(date) { IsoDateDigits(date); }
      if '-' in date {
        var i :| 0 <= i < |date| && date[i] == '-';
        assert out[i] != date[i];
      } else {
        assert out == date;
      }
    }
  }

  // Session ids

  predicate IsIdChar(c: char) { IsAlphanumeric(c) || c == '-' }

  function Cleaned(sessionId: string): string { Select(sessionId, IsIdChar) }

  /** `digest` stands for the 64-bit SipHash-1-3 of the original id. */
  function TruncateSessionId(sessionId: string, digest: string -> nat): string {
    var cleaned := Cleaned(sessionId);
    if |cleaned| <= SESSION_LIMIT then cleaned
    else cleaned[..SESSION_LIMIT] + "-h" + HexPadded(digest(sessionId) % 0x100_0000, 6)
  }

  lemma TruncatedShape(sessionId: string, digest: string -> nat)
    ensures var sid := TruncateSessionId(sessionId, digest);
            && (forall i :: 0 <= i < |sid| ==> IsIdChar(sid[i]))
            && '_' !in sid
            && |sid| <= SESSION_LIMIT + 8
            && (sid == [] <==> Cleaned(sessionId) == [])
  {
    assert !IsIdChar('_');
  }

  // Names

  function SessionBasename(date: string, agent: string, sessionId: string, chunk: nat,
                           digest: string -> nat): string {
    CompactDate(date) + "_" + agent + "_" + TruncateSessionId(sessionId, digest) + "_" + Padded(chunk, 3) + ".md"
  }

  /** How a name is spelled: for a YYYY-MM-DD date and an id of at most twenty letters, digits and hyphens, its parts are
      joined by underscores, the date without hyphens and split after the year, the chunk in three digits or more. */
  lemma NameSpelled(date: string, agent: string, sessionId: string, chunk: nat, digest: string -> nat)
    returns (digits: string)
    requires IsIsoDate(date)
    requires |sessionId| <= 20 && forall c :: c in sessionId ==> IsAlphanumeric(c) || c == '-'
    ensures SessionBasename(date, agent, sessionId, chunk, digest)
            == date[..4] + "_" + date[5..7] + date[8..] + "_" + agent + "_" + sessionId + "_" + digits + ".md"
    ensures |digits| >= 3 && AllDigits(digits) && DigitsValue(digits) == chunk
  {
    hide Padded, CompactDate, TruncateSessionId, IsIsoDate;
    digits := Padded(chunk, 3);
    PaddedValue(chunk, 3);
    IsoDateCompact(date);
    ShortIdStays(sessionId, digest);
  }

  lemma IsoDateCompact(date: string)
    requires IsIsoDate(date)
    ensures CompactDate(date) == date[..4] + "_" + date[5..7] + date[8..]
  {
    IsoDateDigits(date);
    hide DigitsOf;
    var ds := DigitsOf(date);
    assert ds[..4] == date[..4] && ds[4..8] == date[5..7] + date[8..];
  }

  lemma ShortIdStays(sessionId: string, digest: string -> nat)
    requires |sessionId| <= 20 && forall c :: c in sessionId ==> IsAlphanumeric(c) || c == '-'
    ensures TruncateSessionId(sessionId, digest) == sessionId
  {
    SelectAll(sessionId, IsIdChar);
  }

  function ParseU32(digits: string): Option<nat>
    requires AllDigits(digits)
  {
    var n := DigitsValue(digits);
    if n < U32_LIMIT then Some(n) else None
  }

  function ParseDigits(digits: string): Option<nat> {
    if |digits| < 3 || !AllDigits(digits) then None else ParseU32(digits)
  }

  function ParseChunkComponent(value: string): Option<nat> {
    match SplitOnce(value, "-c")
    case None => ParseDigits(value)
    case Some((digits, suffix)) =>
      if |suffix| == 6 && (forall i :: 0 <= i < |suffix| ==> IsHexDigit(suffix[i])) then ParseDigits(digits)
      else None
  }

  function StripExtension(name: string): Option<string> {
    if EndsWith(name, ".md") then Some(name[..|name| - 3])
    else if EndsWith(name, ".json") then Some(name[..|name| - 5])
    else None
  }

  function ParseStem(stem: string, agent: string, dateCompact: string): Option<(string, nat)> {
    var prefix := dateCompact + "_" + agent + "_";
    if !StartsWith(stem, prefix) then None
    else
      match RSplitOnce(stem[|prefix|..], '_')
      case None => None
      case Some((sid, chunk)) =>
        if sid == [] || !(forall i :: 0 <= i < |sid| ==> IsIdChar(sid[i])) then None
        else
          match ParseChunkComponent(chunk)
          case None => None
          case Some(n) => Some((sid, n))
  }

  function ParseSessionBasename(name: string, agent: string, dateCompact: string): Option<(string, nat)> {
    match StripExtension(name)
    case None => None
    case Some(stem) => ParseStem(stem, agent, dateCompact)
  }

  lemma {:induction false} NoSplit(s: string)
    requires AllDigits(s)
    ensures SplitOnce(s, "-c") == None
  {
    if s != [] {
      assert "-c"[0] == '-' && IsDigit(s[0]);
      NoSplit(s[1..]);
    }
  }

  lemma {:induction false} SplitAfterDigits(digits: string, suffix: string)
    requires AllDigits(digits)
    ensures SplitOnce(digits + "-c" + suffix, "-c") == Some((digits, suffix))
  {
    var s := digits + "-c" + suffix;
    if digits == [] {
      assert s == "-c" + suffix;
      assert s[2..] == suffix;
    } else {
      assert "-c"[0] == '-' && IsDigit(s[0]) && s[0] == digits[0];
      assert s[1..] == digits[1..] + "-c" + suffix;
      SplitAfterDigits(digits[1..], suffix);
      assert digits == [digits[0]] + digits[1..];
      assert !("-c" <= s);
    }
  }

  lemma ChunkRoundTrip(chunk: nat)
    ensures ParseChunkComponent(Padded(chunk, 3)) == if chunk < U32_LIMIT then Some(chunk) else None
  {
    NoSplit(Padded(chunk, 3));
    PaddedValue(chunk, 3);
  }

  lemma StemRoundTrip(dateCompact: string, agent: string, sid: string, component: string)
    requires '_' !in component
    ensures ParseStem(dateCompact + "_" + agent + "_" + sid + "_" + component, agent, dateCompact)
            == if sid == [] || !(forall i :: 0 <= i < |sid| ==> IsIdChar(sid[i])) then None
               else match ParseChunkComponent(component)
                    case None => None
                    case Some(n) => Some((sid, n))
  {
    var prefix := dateCompact + "_" + agent + "_";
    var stem := dateCompact + "_" + agent + "_" + sid + "_" + component;
    assert stem == prefix + (sid + ['_'] + component);
    assert stem[|prefix|..] == sid + ['_'] + component;
    RSplitOnceAt(sid, '_', component);
  }

  /** Parsing a printed name gives back the truncated id and the chunk, for every date, agent and
      session id; it fails only when no character of the id survives cleaning. */
  lemma BasenameRoundTrip(date: string, agent: string, sessionId: string, chunk: nat, digest: string -> nat)
    requires chunk < U32_LIMIT
    ensures ParseSessionBasename(SessionBasename(date, agent, sessionId, chunk, digest), agent, CompactDate(date))
            == if Cleaned(sessionId) == [] then None
               else Some((TruncateSessionId(sessionId, digest), chunk))
  {
    var sid := TruncateSessionId(sessionId, digest);
    var component := Padded(chunk, 3);
    var stem := CompactDate(date) + "_" + agent + "_" + sid + "_" + component;
    var name := SessionBasename(date, agent, sessionId, chunk, digest);
    assert name == stem + ".md";
    assert StripExtension(name) == Some(stem);
    assert '_' !in component by { assert !IsDigit('_'); }
    TruncatedShape(sessionId, digest);
    ChunkRoundTrip(chunk);
    StemRoundTrip(CompactDate(date), agent, sid, component);
  }

  /** A collision suffix `-c` plus six hex digits, in either file type, names the same session and
      chunk as the plain file. */
  lemma CollisionSuffixIgnored(dateCompact: string, agent: string, sid: string, chunk: nat,
                               suffix: string, json: bool)
    requires |suffix| == 6 && forall i :: 0 <= i < |suffix| ==> IsHexDigit(suffix[i])
    ensures var stem := dateCompact + "_" + agent + "_" + sid + "_" + Padded(chunk, 3);
            ParseSessionBasename(stem + "-c" + suffix + (if json then ".json" else ".md"), agent, dateCompact)
            == ParseSessionBasename(stem + ".md", agent, dateCompact)
  {
    hide ParseStem, Padded, SplitOnce, StripExtension;
    var component := Padded(chunk, 3);
    var stem := dateCompact + "_" + agent + "_" + sid + "_" + component;
    var long := component + "-c" + suffix;
    var ext := if json then ".json" else ".md";
    assert '_' !in component && '_' !in long by { assert !IsDigit('_') && !IsHexDigit('_'); }
    SplitAfterDigits(component, suffix);
    NoSplit(component);
    StemRoundTrip(dateCompact, agent, sid, component);
    StemRoundTrip(dateCompact, agent, sid, long);
    var name := stem + "-c" + suffix + ext;
    assert stem + "-c" + suffix == dateCompact + "_" + agent + "_" + sid + "_" + long;
    assert name == (stem + "-c" + suffix) + ext;
    StripAppended(stem + "-c" + suffix, json);
    StripAppended(stem, false);
  }

  lemma StripAppended(stem: string, json: bool)
    ensures StripExtension(stem + (if json then ".json" else ".md")) == Some(stem)
  {
    var name := stem + (if json then ".json" else ".md");
    if json {
      assert name[|name| - 1] == 'n' && ".md"[2] == 'd';
      assert EndsWith(name, ".json");
      assert name[|name| - 3..][2] == 'n';
      assert name[..|name| - 5] == stem;
    } else {
      assert EndsWith(name, ".md") && name[..|name| - 3] == stem;
    }
  }
}
