/**
 Device ids and device paths on Windows: build_device_path and extract_device_id of
 src/monitor_win32.c, and strrpbrk of src/compat.c.  A C string is an array with a terminator;
 upper-casing is that of the C locale.
 */
module DevicePath {
  import opened CStrings
  import opened Wrappers

  // ---------- what the two functions compute ----------

  datatype Guid = Guid(data1: nat, data2: nat, data3: nat, data4: seq<Byte>)

  predicate IsGuid(g: Guid)
  {
    g.data1 < 0x1_0000_0000 && g.data2 < 0x1_0000 && g.data3 < 0x1_0000 && |g.data4| == 8
  }

  /** What the text of a GUID is made of. */
  predicate IsHex(c: char) { '0' <= c <= '9' || 'a' <= c <= 'f' || c == '-' }

  predicate AllHex(s: string)
  {
    forall i :: 0 <= i < |s| ==> IsHex(s[i])
  }

  function Digit(n: nat): (c: char)
    requires n < 16
    ensures IsHex(c) && DigitValue(c) == n
  {
    "0123456789abcdef"[n]
  }

  function DigitValue(c: char): nat
  {
    if '0' <= c <= '9' then (c as int - '0' as int) else if 'a' <= c <= 'f' then c as int - 'a' as int + 10 else 0
  }

  function Power16(width: nat): (p: nat)
    ensures 0 < p
  {
    if width == 0 then 1 else 16 * Power16(width - 1)
  }

  /** %0<width>x for a number that needs no more digits. */
  function Hex(n: nat, width: nat): (s: string)
    ensures |s| == width && AllHex(s)
    decreases width
  {
    if width == 0 then "" else Hex(n / 16, width - 1) + [Digit(n % 16)]
  }

  function HexValue(s: string): nat
  {
    if s == "" then 0 else 16 * HexValue(s[..|s| - 1]) + DigitValue(s[|s| - 1])
  }

  /** The digits are those of the number. */
  lemma {:induction false} HexRoundTrip(n: nat, width: nat)
    requires n < Power16(width)
    ensures HexValue(Hex(n, width)) == n
    decreases width
  {
    if width > 0 {
      HexRoundTrip(n / 16, width - 1);
      var s := Hex(n, width);
      assert s[..width - 1] == Hex(n / 16, width - 1) && s[width - 1] == Digit(n % 16);
    }
  }

  function Dash(a: string, b: string): (s: string)
    requires AllHex(a) && AllHex(b)
    ensures |s| == |a| + 1 + |b| && AllHex(s)
  {
    a + "-" + b
  }

  /** %02x for each byte. */
  function HexBytes(b: seq<Byte>): (s: string)
    ensures |s| == 2 * |b| && AllHex(s)
  {
    if b == [] then "" else Hex(b[0], 2) + HexBytes(b[1..])
  }

  function Data4Text(b: seq<Byte>): (s: string)
    requires |b| == 8
    ensures |s| == 17 && AllHex(s)
  {
    Dash(HexBytes(b[..2]), HexBytes(b[2..]))
  }

  function GuidText(g: Guid): (s: string)
    requires IsGuid(g)
    ensures |s| == 36 && AllHex(s)
  {
    Dash(Hex(g.data1, 8), Dash(Hex(g.data2, 4), Dash(Hex(g.data3, 4), Data4Text(g.data4))))
  }

  function Hashed(id: string): (s: string)
    ensures |s| == |id| && forall i :: 0 <= i < |s| ==> s[i] == if id[i] == '\\' then '#' else id[i]
  {
    if id == "" then "" else [if id[0] == '\\' then '#' else id[0]] + Hashed(id[1..])
  }

  const WIN32_PREFIX := "\\\\.\\"

  /** A separator and the interface class. */
  function Class(text: string): (s: string)
    ensures |s| == |text| + 3
  {
    "#{" + text + "}"
  }

  /** The id and the interface class. */
  function Tail(id: string, g: Guid): (s: string)
    requires IsGuid(g)
    ensures |s| == |id| + 39
  {
    Hashed(id) + Class(GuidText(g))
  }

  function PathOf(id: string, g: Guid): (path: string)
    requires IsGuid(g)
    ensures |path| == 4 + |id| + 39
  {
    WIN32_PREFIX + Tail(id, g)
  }

  function Upper(c: char): char
  {
    if 'a' <= c <= 'z' then (c as int - 32) as char else c
  }

  /** toupper, then '#' becomes a separator again. */
  function Restore(c: char): char
  {
    if Upper(c) == '#' then '\\' else Upper(c)
  }

  function Restored(s: string): (id: string)
    ensures |id| == |s| && forall i :: 0 <= i < |s| ==> id[i] == Restore(s[i])
  {
    if s == "" then "" else [Restore(s[0])] + Restored(s[1..])
  }

  /** Where the last character of s that is in accept stands, or -1. */
  function LastOf(s: string, accept: string): (r: int)
    ensures -1 <= r < |s|
    ensures 0 <= r ==> s[r] in accept
    ensures forall i :: r < i < |s| ==> s[i] !in accept
  {
    if s == "" then -1 else if s[|s| - 1] in accept then |s| - 1 else LastOf(s[..|s| - 1], accept)
  }

  predicate HasPrefix(key: string)
  {
    "\\\\?\\" <= key || "\\\\.\\" <= key || "##.#" <= key || "##?#" <= key
  }

  function Stripped(key: string): string
  {
    if HasPrefix(key) then key[4..] else key
  }

  /** Without the interface class that may follow the last separator. */
  function WithoutClass(s: string): string
  {
    var last := LastOf(s, "\\#");
    if 0 <= last && last + 1 < |s| && s[last + 1] == '{' then s[..last] else s
  }

  function IdOf(key: string): string { Restored(WithoutClass(Stripped(key))) }

  // ---------- round trip ----------

  lemma SeparatorIsLast(head: string, text: string)
    requires AllHex(text)
    ensures WithoutClass(head + Class(text)) == head
  {
    var s := head + Class(text);
    assert s[|head|] == '#' && s[|head| + 1] == '{';
    assert forall i :: |head| < i < |s| ==> s[i] !in "\\#" by {
      forall i | |head| < i < |s| ensures s[i] !in "\\#" {
        if |head| + 2 <= i < |s| - 1 {
          assert s[i] == text[i - |head| - 2];
        }
      }
    }
    assert LastOf(s, "\\#") == |head| by {
      assert s[|head|] in "\\#";
    }
    assert s[..|head|] == head;
  }

  lemma StrippedOfPrefixed(prefix: string, rest: string)
    requires |prefix| == 4 && HasPrefix(prefix)
    ensures Stripped(prefix + rest) == rest
  {
  }

  /** Whichever prefix the system puts in front: what comes back is the id, upper-cased, with separators for '#'. */
  lemma ExtractedFromPath(prefix: string, id: string, g: Guid)
    requires IsGuid(g) && |prefix| == 4 && HasPrefix(prefix)
    ensures IdOf(prefix + Tail(id, g)) == Restored(Hashed(id))
  {
    StrippedOfPrefixed(prefix, Tail(id, g));
    SeparatorIsLast(Hashed(id), GuidText(g));
  }

  /** Upper-case, and no '#'. */
  predicate Canonical(id: string)
  {
    forall i :: 0 <= i < |id| ==> id[i] != '#' && Upper(id[i]) == id[i]
  }

  lemma HashedAndBack(id: string)
    ensures Restored(Hashed(id)) == id <==> Canonical(id)
  {
    var hashed := Hashed(id);
    var back := Restored(hashed);
    forall i | 0 <= i < |id|
      ensures back[i] == if id[i] == '\\' || id[i] == '#' then '\\' else Upper(id[i])
    {
      assert hashed[i] == if id[i] == '\\' then '#' else id[i];
    }
    if forall i :: 0 <= i < |id| ==> back[i] == id[i] {
      assert back == id;
    }
  }

  /** An id survives being made a path exactly if it is upper-case and has no '#'. */
  lemma RoundTripExactlyIf(id: string, g: Guid)
    requires IsGuid(g)
    ensures IdOf(PathOf(id, g)) == id <==> Canonical(id)
  {
    ExtractedFromPath(WIN32_PREFIX, id, g);
    HashedAndBack(id);
  }

  /** What a character becomes on the way to the path and back. */
  function BackAgain(c: char): char { if c == '\\' then '\\' else Restore(c) }

  lemma RestoredAfter(id: string, back: string)
    requires |back| == |id| && forall i :: 0 <= i < |id| ==> back[i] == BackAgain(id[i])
    ensures Restored(Hashed(id)) == back
  {
    var hashed := Hashed(id);
    assert forall i :: 0 <= i < |id| ==> Restored(hashed)[i] == back[i];
  }

  /** What comes back, character by character. */
  lemma IdOfPath(id: string, g: Guid, back: string)
    requires IsGuid(g) && |back| == |id| && forall i :: 0 <= i < |id| ==> back[i] == BackAgain(id[i])
    ensures IdOf(PathOf(id, g)) == back
  {
    RestoredAfter(id, back);
    ExtractedFromPath(WIN32_PREFIX, id, g);
  }

  /** An id that does not survive: '#' comes back as a separator, lower case as upper case. */
  lemma SomeIdsChange(id: string, g: Guid)
    requires id == "a#1" && IsGuid(g)
    ensures IdOf(PathOf(id, g)) == "A\\1"
  {
    IdOfPath(id, g, "A\\1");
  }

  lemma HexDetermines(m: nat, n: nat, width: nat)
    requires m < Power16(width) && n < Power16(width) && Hex(m, width) == Hex(n, width)
    ensures m == n
  {
    HexRoundTrip(m, width);
    HexRoundTrip(n, width);
  }

  lemma Powers()
    ensures Power16(2) == 0x100 && Power16(4) == 0x1_0000 && Power16(8) == 0x1_0000_0000
  {
    assert Power16(2) == 0x100 && Power16(4) == 0x100 * Power16(2);
    assert Power16(6) == 0x100 * Power16(4) && Power16(8) == 0x100 * Power16(6);
  }

  lemma HexBytesParts(a: seq<Byte>)
    requires a != []
    ensures 2 <= |HexBytes(a)| && HexBytes(a)[..2] == Hex(a[0], 2) && HexBytes(a)[2..] == HexBytes(a[1..])
  {
  }

  lemma {:induction false} HexBytesDetermine(a: seq<Byte>, b: seq<Byte>)
    requires |a| == |b| && HexBytes(a) == HexBytes(b)
    ensures a == b
    decreases |a|
  {
    if a != [] {
      HexBytesParts(a);
      HexBytesParts(b);
      Powers();
      HexDetermines(a[0], b[0], 2);
      HexBytesDetermine(a[1..], b[1..]);
      assert a == [a[0]] + a[1..] && b == [b[0]] + b[1..];
    }
  }

  lemma DashDetermines(a: string, b: string, a': string, b': string)
    requires AllHex(a) && AllHex(b) && AllHex(a') && AllHex(b')
    requires |a| == |a'| && Dash(a, b) == Dash(a', b')
    ensures a == a' && b == b'
  {
    var s := Dash(a, b);
    assert s[..|a|] == a && s[..|a|] == a' && s[|a| + 1..] == b && s[|a| + 1..] == b';
  }

  lemma FieldDetermines(m: nat, n: nat, width: nat, rest: string, rest': string)
    requires m < Power16(width) && n < Power16(width) && AllHex(rest) && AllHex(rest')
    requires Dash(Hex(m, width), rest) == Dash(Hex(n, width), rest')
    ensures m == n && rest == rest'
  {
    DashDetermines(Hex(m, width), rest, Hex(n, width), rest');
    HexDetermines(m, n, width);
  }

  lemma Data4Determines(a: seq<Byte>, b: seq<Byte>)
    requires |a| == 8 && |b| == 8 && Data4Text(a) == Data4Text(b)
    ensures a == b
  {
    DashDetermines(HexBytes(a[..2]), HexBytes(a[2..]), HexBytes(b[..2]), HexBytes(b[2..]));
    HexBytesDetermine(a[..2], b[..2]);
    HexBytesDetermine(a[2..], b[2..]);
    assert a == a[..2] + a[2..] && b == b[..2] + b[2..];
  }

  lemma GuidFieldsDetermined(g: Guid, h: Guid)
    requires IsGuid(g) && IsGuid(h) && GuidText(g) == GuidText(h)
    ensures g == h
  {
    var g4, h4 := Data4Text(g.data4), Data4Text(h.data4);
    var g3, h3 := Dash(Hex(g.data3, 4), g4), Dash(Hex(h.data3, 4), h4);
    var g2, h2 := Dash(Hex(g.data2, 4), g3), Dash(Hex(h.data2, 4), h3);
    Powers();
    FieldDetermines(g.data1, h.data1, 8, g2, h2);
    FieldDetermines(g.data2, h.data2, 4, g3, h3);
    FieldDetermines(g.data3, h.data3, 4, g4, h4);
    Data4Determines(g.data4, h.data4);
  }

  /** The text determines the interface class. */
  lemma GuidTextDetermines(g: Guid, h: Guid)
    requires IsGuid(g) && IsGuid(h)
    ensures GuidText(g) == GuidText(h) <==> g == h
  {
    if GuidText(g) == GuidText(h) {
      GuidFieldsDetermined(g, h);
    }
  }

  lemma TextOfClass(head: string, text: string)
    ensures var s := head + Class(text); s[|s| - |text| - 1..|s| - 1] == text
  {
  }

  lemma ClassAtEnd(id: string, g: Guid)
    requires IsGuid(g)
    ensures var path := PathOf(id, g); path[|path| - 37..|path| - 1] == GuidText(g)
  {
    var text := GuidText(g);
    Regroup(WIN32_PREFIX, Hashed(id), Class(text));
    TextOfClass(WIN32_PREFIX + Hashed(id), text);
  }

  lemma SamePath(id1: string, g1: Guid, id2: string, g2: Guid)
    requires IsGuid(g1) && IsGuid(g2) && PathOf(id1, g1) == PathOf(id2, g2)
    ensures g1 == g2
    ensures Canonical(id1) && Canonical(id2) ==> id1 == id2
  {
    RoundTripExactlyIf(id1, g1);
    RoundTripExactlyIf(id2, g2);
    ClassAtEnd(id1, g1);
    ClassAtEnd(id2, g2);
    GuidTextDetermines(g1, g2);
  }

  /** A path determines the interface class, and the id up to case and separators: a canonical id entirely. */
  lemma PathDetermines(id1: string, g1: Guid, id2: string, g2: Guid)
    requires IsGuid(g1) && IsGuid(g2)
    ensures PathOf(id1, g1) == PathOf(id2, g2) ==>
              g1 == g2 && (Canonical(id1) && Canonical(id2) ==> id1 == id2)
  {
    if PathOf(id1, g1) == PathOf(id2, g2) {
      SamePath(id1, g1, id2, g2);
    }
  }

  // ---------- what the strings look like ----------

  const LOWER := "abcdefghijklmnopqrstuvwxyz"
  const UPPER := "ABCDEFGHIJKLMNOPQRSTUVWXYZ"

  lemma LetterAt(k: nat)
    requires k < 26
    ensures LOWER[k] as int == 'a' as int + k && UPPER[k] as int == 'A' as int + k
  {
  }

  /** toupper changes the 26 letters and nothing else. */
  lemma UpperIsThat(k: nat, c: char)
    requires k < 26
    ensures Upper(LOWER[k]) == UPPER[k]
    ensures !('a' <= c <= 'z') ==> Upper(c) == c
  {
    LetterAt(k);
  }

  /** One of the four prefixes that a path may have. */
  predicate Prefixed(key: string)
  {
    4 <= |key| && (key[..4] == "\\\\?\\" || key[..4] == "\\\\.\\" || key[..4] == "##.#" || key[..4] == "##?#")
  }

  lemma PrefixesAre(key: string)
    ensures HasPrefix(key) <==> Prefixed(key)
  {
    if 4 <= |key| {
      assert key == key[..4] + key[4..];
    }
  }

  predicate Separator(c: char) { c == '\\' || c == '#' }

  /** The last separator of s is at index last; there is none if last is -1. */
  ghost predicate LastAt(s: string, last: int)
  {
    -1 <= last < |s| && (0 <= last ==> Separator(s[last])) && forall j :: last < j < |s| ==> !Separator(s[j])
  }

  lemma LastIsLast(s: string, last: int)
    requires LastAt(s, last)
    ensures LastOf(s, "\\#") == last
  {
    var r := LastOf(s, "\\#");
    assert forall c: char :: c in "\\#" <==> Separator(c);
  }

  /** On any string: the prefix goes, a class behind the last separator goes, and each character is translated. */
  lemma IdReads(key: string, body: string, last: int, head: string)
    requires body == (if Prefixed(key) then key[4..] else key) && LastAt(body, last)
    requires head == if 0 <= last && last + 1 < |body| && body[last + 1] == '{' then body[..last] else body
    ensures |IdOf(key)| == |head|
    ensures forall i :: 0 <= i < |head| ==> IdOf(key)[i] == if head[i] == '#' then '\\' else Upper(head[i])
  {
    PrefixesAre(key);
    LastIsLast(body, last);
  }

  lemma DashReads(s: string, i: nat, a: string, b: string)
    requires AllHex(a) && AllHex(b) && i <= |s| && s[i..] == Dash(a, b)
    ensures i + |a| < |s| && s[i..i + |a|] == a && s[i + |a|] == '-' && s[i + |a| + 1..] == b
  {
    var t, n := Dash(a, b), |a|;
    assert t[..n] == a && t[n] == '-' && t[n + 1..] == b;
    assert s[i..][..n] == s[i..i + n] && s[i..][n] == s[i + n] && s[i..][n + 1..] == s[i + n + 1..];
  }

  lemma FieldsRead(t: string, a: string, b: string, c: string, d: string, e: string)
    requires AllHex(a) && AllHex(b) && AllHex(c) && AllHex(d) && AllHex(e)
    requires |a| == 8 && |b| == |c| == |d| == 4 && |e| == 12 && t == Dash(a, Dash(b, Dash(c, Dash(d, e))))
    ensures |t| == 36 && t[8] == t[13] == t[18] == t[23] == '-'
    ensures t[..8] == a && t[9..13] == b && t[14..18] == c && t[19..23] == d && t[24..] == e
  {
    assert t[0..] == t;
    DashReads(t, 0, a, Dash(b, Dash(c, Dash(d, e))));
    DashReads(t, 9, b, Dash(c, Dash(d, e)));
    DashReads(t, 14, c, Dash(d, e));
    DashReads(t, 19, d, e);
  }

  /** s is two digits for each byte, one after the other. */
  predicate Spells(s: string, b: seq<Byte>)
    decreases |b|
  {
    if b == [] then s == ""
    else 2 <= |s| && HexValue(s[..2]) == b[0] && Spells(s[2..], b[1..])
  }

  lemma {:induction false} HexBytesSpell(b: seq<Byte>)
    ensures Spells(HexBytes(b), b)
    decreases |b|
  {
    if b != [] {
      HexBytesParts(b);
      Powers();
      HexRoundTrip(b[0], 2);
      HexBytesSpell(b[1..]);
    }
  }

  /** Where the fields of an interface class stand in its text. */
  lemma TextReads(g: Guid)
    requires IsGuid(g)
    ensures var t := GuidText(g);
            && t[8] == t[13] == t[18] == t[23] == '-'
            && HexValue(t[..8]) == g.data1 && HexValue(t[9..13]) == g.data2 && HexValue(t[14..18]) == g.data3
            && Spells(t[19..23], g.data4[..2]) && Spells(t[24..], g.data4[2..])
  {
    HexBytesSpell(g.data4[..2]);
    HexBytesSpell(g.data4[2..]);
    FieldsRead(GuidText(g), Hex(g.data1, 8), Hex(g.data2, 4), Hex(g.data3, 4),
               HexBytes(g.data4[..2]), HexBytes(g.data4[2..]));
    Powers();
    HexRoundTrip(g.data1, 8);
    HexRoundTrip(g.data2, 4);
    HexRoundTrip(g.data3, 4);
  }

  lemma PiecesRead(path: string, a: string, b: string, c: string, m: nat, n: nat, e: nat)
    requires path == a + (b + ("#{" + c + "}")) && m == |a| && n == m + |b| && e == n + 2 + |c|
    ensures |path| == e + 1 && path[..m] == a && path[m..n] == b
    ensures path[n..n + 2] == "#{" && path[n + 2..e] == c && path[e] == '}'
  {
  }

  /** A path: a literal prefix, the id with '#' for separators, and the class in braces. */
  lemma PathReads(id: string, g: Guid, n: nat)
    requires IsGuid(g) && n == |id| + 4
    ensures var path := PathOf(id, g);
            && |path| == n + 39 && path[..4] == "\\\\.\\" && path[4..n] == Hashed(id)
            && path[n..n + 2] == "#{" && path[n + 2..n + 38] == GuidText(g) && path[n + 38] == '}'
    ensures forall i :: 0 <= i < |id| ==> Hashed(id)[i] == if id[i] == '\\' then '#' else id[i]
  {
    PiecesRead(PathOf(id, g), WIN32_PREFIX, Hashed(id), GuidText(g), 4, n, n + 38);
  }

  // ---------- the code ----------

  /** strrpbrk; -1 is NULL. */
  method StrRpbrk(a: array<char>, accept: string, ghost s: string) returns (r: int)
    requires IsString(a, 0, s)
    ensures r == LastOf(s, accept)
  {
    var n := StrLen(a, 0, s);
    r := n as int - 1;
    while 0 <= r
      invariant -1 <= r < |s|
      invariant forall i :: r < i < |s| ==> s[i] !in accept
    {
      var k := 0;
      while k < |accept|
        invariant k <= |accept| && forall j :: 0 <= j < k ==> accept[j] != a[r]
      {
        if accept[k] == a[r] {
          assert s[r] in accept;
          return;
        }
        k := k + 1;
      }
      r := r - 1;
    }
  }

  /** strncmp(a, prefix, |prefix|) == 0. */
  method StartsWith(a: array<char>, prefix: string, ghost s: string) returns (b: bool)
    requires IsString(a, 0, s) && forall i :: 0 <= i < |prefix| ==> prefix[i] != '\0'
    ensures b <==> prefix <= s
  {
    var i := 0;
    while i < |prefix|
      invariant i <= |prefix| && i <= |s| && prefix[..i] == s[..i]
    {
      if a[i] != prefix[i] {
        return false;
      }
      i := i + 1;
    }
    b := true;
  }

  method SkipPrefix(key: array<char>, ghost s: string) returns (from: nat)
    requires IsString(key, 0, s)
    ensures from <= |s| && s[from..] == Stripped(s)
  {
    var p1 := StartsWith(key, "\\\\?\\", s);
    var p2 := StartsWith(key, "\\\\.\\", s);
    var p3 := StartsWith(key, "##.#", s);
    var p4 := StartsWith(key, "##?#", s);
    from := if p1 || p2 || p3 || p4 then 4 else 0;
  }

  method Cut(id: array<char>, at: nat, ghost s: string)
    requires IsString(id, 0, s) && at < |s|
    modifies id
    ensures IsString(id, 0, s[..at])
  {
    id[at] := '\0';
  }

  /** The interface class goes, if there is one. */
  method CutClass(id: array<char>, ghost s: string)
    requires IsString(id, 0, s)
    modifies id
    ensures IsString(id, 0, WithoutClass(s))
  {
    var last := StrRpbrk(id, "\\#", s);
    if 0 <= last && id[last + 1] == '{' {
      Cut(id, last, s);
    }
  }

  method RestoreInPlace(id: array<char>, ghost s: string)
    requires IsString(id, 0, s)
    modifies id
    ensures IsString(id, 0, Restored(s))
  {
    var p := 0;
    while id[p] != '\0'
      invariant p <= |s| < id.Length && id[|s|] == '\0'
      invariant forall i :: p <= i < |s| ==> id[i] == s[i] && s[i] != '\0'
      invariant forall i :: 0 <= i < p ==> id[i] == Restore(s[i]) && id[i] != '\0'
      decreases |s| - p
    {
      id[p] := Upper(id[p]);
      if id[p] == '#' {
        id[p] := '\\';
      }
      p := p + 1;
    }
    ghost var restored := Restored(s);
    assert forall i :: 0 <= i < |s| ==> restored[i] == Restore(s[i]);
  }

  method ExtractDeviceId(key: array<char>, ghost s: string) returns (id: array<char>)
    requires IsString(key, 0, s)
    ensures fresh(id) && IsString(id, 0, IdOf(s))
  {
    var from := SkipPrefix(key, s);
    ghost var rest := Stripped(s);
    id := StrDup(key, from, rest);
    CutClass(id, rest);
    RestoreInPlace(id, WithoutClass(rest));
  }

  /** The loop of build_device_path. */
  method WriteHashed(path: array<char>, at: nat, id: array<char>, ghost s: string) returns (ptr: nat)
    requires IsString(id, 0, s) && at + |s| <= path.Length && path != id
    modifies path
    ensures ptr == at + |s| && path[..ptr] == old(path[..at]) + Hashed(s)
  {
    ptr := at;
    var k := 0;
    while id[k] != '\0'
      invariant k <= |s| && ptr == at + k
      invariant k < |s| ==> id[k] == s[k] && s[k] != '\0'
      invariant path[..ptr] == old(path[..at]) + Hashed(s)[..k]
      decreases |s| - k
    {
      if id[k] == '\\' {
        path[ptr] := '#';
      } else {
        path[ptr] := id[k];
      }
      ptr := ptr + 1;
      k := k + 1;
    }
    assert Hashed(s)[..k] == Hashed(s);
  }

  lemma PathIsPlain(id: string, text: string)
    requires Plain(id) && AllHex(text)
    ensures Plain(WIN32_PREFIX + (Hashed(id) + Class(text)))
  {
    var hashed := Hashed(id);
    assert Plain(hashed);
    assert Plain(text) by {
      forall i | 0 <= i < |text| ensures text[i] != '\0' { assert IsHex(text[i]); }
    }
    PlainConcat("#{", text);
    PlainConcat("#{" + text, "}");
    PlainConcat(hashed, Class(text));
    PlainConcat(WIN32_PREFIX, hashed + Class(text));
  }

  method WriteAll(path: array<char>, id: array<char>, tail: string, ghost s: string) returns (ptr: nat)
    requires IsString(id, 0, s) && 4 + |s| + |tail| < path.Length && path != id
    modifies path
    ensures ptr < path.Length && path[ptr] == '\0'
    ensures path[..ptr] == WIN32_PREFIX + (Hashed(s) + tail)
  {
    ptr := Write(path, 0, WIN32_PREFIX);
    ptr := WriteHashed(path, ptr, id, s);
    ptr := Write(path, ptr, tail);
    path[ptr] := '\0';
    assert path[..ptr] == WIN32_PREFIX + Hashed(s) + tail;
  }

  /** The path with its terminator fits the 4 + strlen(id) + 41 bytes that are allocated. */
  method BuildDevicePath(id: array<char>, g: Guid, ghost s: string) returns (path: array<char>)
    requires IsString(id, 0, s) && IsGuid(g)
    ensures fresh(path) && path.Length == 4 + |s| + 41 && IsString(path, 0, PathOf(s, g))
  {
    var n := StrLen(id, 0, s);
    var tail := Class(GuidText(g));
    path := new char[4 + n + 41];
    var ptr := WriteAll(path, id, tail, s);
    PathIsPlain(s, GuidText(g));
    SliceIsString(path, PathOf(s, g));
  }
}
