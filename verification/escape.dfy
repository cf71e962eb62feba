/**
 * Unit-name escaping of a filesystem path, the `--path` mode of
 * `systemd-escape` described in "String Escaping for Inclusion in Unit
 * Names" of systemd.unit(5): slashes at both ends are dropped (an empty
 * result is "-"), runs of slashes collapse to one, each slash becomes
 * "-", ASCII letters, digits, ":" and "_" stay, "." stays except as the
 * first character, and every other byte becomes "\x" and two lower-case
 * hex digits.
 *
 * Also here: the choice of a fresh vsock context id (CID) for a new
 * virtual machine from the ids already in use.
 */
module SystemdEscape {
  type Byte = b: int | 0 <= b < 256
  type Bytes = seq<Byte>
  type String = seq<char>

  const Slash: Byte := 0x2F
  const Dot: Byte := 0x2E

  // ---------------------------------------------------------------------
  // Escaping
  // ---------------------------------------------------------------------

  /** `s` without slashes at either end. */
  function TrimSlashes(s: Bytes): (r: Bytes)
    ensures r == [] || (r[0] != Slash && r[|r| - 1] != Slash)
    ensures |r| <= |s|
  {
    if |s| > 0 && s[0] == Slash then TrimSlashes(s[1..])
    else if |s| > 0 && s[|s| - 1] == Slash then TrimSlashes(s[..|s| - 1])
    else s
  }

  /** Drop every slash that follows a slash; `afterSlash` says whether the byte before `s` was one. */
  function CollapseFrom(s: Bytes, afterSlash: bool): (r: Bytes)
    ensures |r| <= |s|
  {
    if |s| == 0 then []
    else if s[0] == Slash && afterSlash then CollapseFrom(s[1..], true)
    else [s[0]] + CollapseFrom(s[1..], s[0] == Slash)
  }

  /** Runs of slashes collapsed to one. */
  function Collapse(s: Bytes): Bytes {
    CollapseFrom(s, false)
  }

  predicate IsAsciiAlnum(b: Byte) {
    0x30 <= b <= 0x39 || 0x41 <= b <= 0x5A || 0x61 <= b <= 0x7A
  }

  /** Bytes that stand for themselves, wherever they are. */
  predicate Plain(b: Byte) {
    IsAsciiAlnum(b) || b == 0x3A || b == 0x5F
  }

  const HexDigits: String := "0123456789abcdef"

  /** "\x" and the byte as two lower-case hex digits. */
  function HexEscape(b: Byte): (r: String)
    ensures |r| == 4 && r[0] == '\\' && r[1] == 'x'
  {
    ['\\', 'x', HexDigits[b / 16], HexDigits[b % 16]]
  }

  /** One byte of the collapsed path, at position `index` of it. */
  function EscapeByte(b: Byte, index: nat): (r: String)
    ensures r != [] && '/' !in r
  {
    if b == Slash then "-"
    else if Plain(b) || (b == Dot && index > 0) then [b as char]
    else HexEscape(b)
  }

  /** Each byte escaped, positions counted from `index`. */
  function EscapeBytes(s: Bytes, index: nat): (r: String)
    ensures '/' !in r
    ensures |s| > 0 ==> r != []
  {
    if |s| == 0 then [] else EscapeByte(s[0], index) + EscapeBytes(s[1..], index + 1)
  }

  /** The unit-name form of a path. */
  function EscapePath(path: Bytes): (r: String)
    ensures r != [] && '/' !in r
    ensures TrimSlashes(path) == [] <==> r == "-"
  {
    var trimmed := TrimSlashes(path);
    if trimmed == [] then "-"
    else
      var r := EscapeBytes(Collapse(trimmed), 0);
      EscapeNotDash(Collapse(trimmed));
      r
  }

  /** A non-empty path that neither starts with a slash nor is one does not escape to a lone "-". */
  lemma EscapeNotDash(s: Bytes)
    requires s != [] && s[0] != Slash
    ensures EscapeBytes(s, 0) != "-"
  {
    var head := EscapeByte(s[0], 0);
    assert EscapeBytes(s, 0)[0] == head[0];
    if head == HexEscape(s[0]) {
      assert EscapeBytes(s, 0)[0] == '\\';
    }
  }

  // ---------------------------------------------------------------------
  // Reading an escaped name back
  // ---------------------------------------------------------------------

  function HexValue(c: char): (r: int)
    ensures -1 <= r < 16
  {
    if '0' <= c <= '9' then c as int - '0' as int
    else if 'a' <= c <= 'f' then c as int - 'a' as int + 10
    else -1
  }

  /** The bytes a unit name stands for: "-" is a slash, "\xHH" a byte, anything else itself. */
  function Unescape(s: String): Bytes
    decreases |s|
  {
    if |s| == 0 then []
    else if s[0] == '-' then [Slash] + Unescape(s[1..])
    else if s[0] == '\\' && |s| >= 4 && s[1] == 'x' && HexValue(s[2]) >= 0 && HexValue(s[3]) >= 0 then
      [HexValue(s[2]) * 16 + HexValue(s[3])] + Unescape(s[4..])
    else if (s[0] as int) < 256 then [s[0] as int] + Unescape(s[1..])
    else Unescape(s[1..])
  }

  /** The path a unit name stands for: "-" alone is the root, which trims to nothing. */
  function UnescapePath(s: String): Bytes {
    if s == "-" then [] else Unescape(s)
  }

  lemma HexDigitsValue(v: nat)
    requires v < 16
    ensures HexValue(HexDigits[v]) == v
  {
  }

  /** Reading back one escaped byte gives that byte, whatever follows. */
  lemma UnescapeByte(b: Byte, index: nat, rest: String)
    ensures Unescape(EscapeByte(b, index) + rest) == [b] + Unescape(rest)
  {
    var e := EscapeByte(b, index);
    if b == Slash {
    } else if Plain(b) || (b == Dot && index > 0) {
      assert (e + rest)[0] == b as char && (e + rest)[1..] == rest;
    } else {
      HexDigitsValue(b / 16);
      HexDigitsValue(b % 16);
      assert (e + rest)[4..] == rest;
      assert (e + rest)[..4] == e;
    }
  }

  lemma {:induction false} UnescapeBytes(s: Bytes, index: nat)
    ensures Unescape(EscapeBytes(s, index)) == s
    decreases |s|
  {
    if |s| > 0 {
      UnescapeBytes(s[1..], index + 1);
      UnescapeByte(s[0], index, EscapeBytes(s[1..], index + 1));
    }
  }

  /**
   * Escaping loses exactly the slashes at the ends and the repeats inside
   * a run: the name reads back as the trimmed, collapsed path.
   */
  lemma EscapePathRoundTrip(path: Bytes)
    ensures UnescapePath(EscapePath(path)) == Collapse(TrimSlashes(path))
  {
    var trimmed := TrimSlashes(path);
    if trimmed != [] {
      UnescapeBytes(Collapse(trimmed), 0);
    }
  }

  /** Two paths get the same name exactly when they trim and collapse to the same bytes. */
  lemma EscapePathInjective(p: Bytes, q: Bytes)
    ensures EscapePath(p) == EscapePath(q) <==> Collapse(TrimSlashes(p)) == Collapse(TrimSlashes(q))
  {
    EscapePathRoundTrip(p);
    EscapePathRoundTrip(q);
    if Collapse(TrimSlashes(p)) == Collapse(TrimSlashes(q)) {
      CollapseEmpty(TrimSlashes(p));
      CollapseEmpty(TrimSlashes(q));
    }
  }

  lemma CollapseEmpty(s: Bytes)
    ensures Collapse(s) == [] <==> s == []
  {
  }

  /** No two slashes in a row survive collapsing. */
  lemma {:induction false} CollapseNoRuns(s: Bytes, afterSlash: bool)
    ensures var r := CollapseFrom(s, afterSlash);
            forall i | 0 <= i < |r| - 1 :: !(r[i] == Slash && r[i + 1] == Slash)
    ensures afterSlash && |CollapseFrom(s, afterSlash)| > 0 ==> CollapseFrom(s, afterSlash)[0] != Slash
    decreases |s|
  {
    if |s| > 0 {
      CollapseNoRuns(s[1..], afterSlash);
      CollapseNoRuns(s[1..], s[0] == Slash);
    }
  }

  /** "/var/lib//app/" is named "var-lib-app"; "/" and "" are named "-"; a leading "." is escaped. */
  lemma EscapeExamples()
    ensures EscapePath([0x2F]) == "-" && EscapePath([]) == "-"
    ensures EscapePath([0x2F, 0x61, 0x2F, 0x2F, 0x62, 0x2F]) == "a-b"
    ensures EscapePath([0x2E, 0x61]) == "\\x2ea"
    ensures EscapePath([0x61, 0x2D]) == "a\\x2d"
  {
    assert TrimSlashes([0x2F, 0x61, 0x2F, 0x2F, 0x62, 0x2F]) == [0x61, 0x2F, 0x2F, 0x62];
    assert Collapse([0x61, 0x2F, 0x2F, 0x62]) == [0x61, 0x2F, 0x62];
    assert EscapeBytes([0x61, 0x2F, 0x62], 0) == "a-b";
    assert HexEscape(0x2E) == "\\x2e";
    assert HexEscape(0x2D) == "\\x2d";
  }

  // ---------------------------------------------------------------------
  // Context ids
  // ---------------------------------------------------------------------

  const U32Modulus: int := 0x1_0000_0000
  type U32 = x: int | 0 <= x < U32Modulus

  /** The CID a new machine takes when none is in use. */
  const FirstCid: U32 := 10

  function Max(s: seq<U32>): (r: U32)
    requires |s| > 0
    ensures r in s && forall i | 0 <= i < |s| :: s[i] <= r
  {
    if |s| == 1 then s[0]
    else
      var m := Max(s[1..]);
      assert forall i | 1 <= i < |s| :: s[i] == s[1..][i - 1];
      if s[0] >= m then s[0] else m
  }

  /** One past the largest CID in use (with 32-bit wrap-around), or the first CID when none is. */
  function NextCid(inUse: seq<U32>): (r: U32)
    ensures |inUse| == 0 ==> r == FirstCid
  {
    if |inUse| == 0 then FirstCid
    else if Max(inUse) == U32Modulus - 1 then 0
    else Max(inUse) + 1
  }

  /**
   * Unless the largest CID in use is the largest 32-bit value, the new CID
   * is above every CID in use, so it is free, and it is the smallest such
   * value.
   */
  lemma NextCidFresh(inUse: seq<U32>)
    requires |inUse| > 0 ==> Max(inUse) < U32Modulus - 1
    ensures forall i | 0 <= i < |inUse| :: inUse[i] < NextCid(inUse)
    ensures NextCid(inUse) !in inUse
    ensures |inUse| > 0 ==> NextCid(inUse) - 1 in inUse
  {
  }

  /** The order in which CIDs were found makes no difference. */
  lemma NextCidOrderFree(a: seq<U32>, b: seq<U32>)
    requires multiset(a) == multiset(b)
    ensures NextCid(a) == NextCid(b)
  {
    if |a| > 0 {
      assert |b| > 0 by {
        assert |multiset(b)| == |multiset(a)|;
      }
      assert Max(a) in multiset(b) && Max(b) in multiset(a);
    } else {
      assert |multiset(b)| == 0;
    }
  }
}
