/** The event-message normaliser of `wifi_wait_on_socket`: a received event
    `IFNAME=iface <N>EVENT` or `<N>EVENT` loses its verbosity tag `<N>`, in place
    in the caller's buffer. `Normalize` says what the text becomes;
    `NormalizeInPlace` is the buffer algorithm, proved to produce it. */
module EventNormalizer {
  import opened CStrings

  const IFNAME := "IFNAME="
  const WPA_EVENT_IGNORE := "CTRL-EVENT-IGNORE "

  /** An `IFNAME=` event with no space before its terminator: its per-interface
      framing is broken and the whole event is replaced. */
  predicate Malformed(s: seq<char>)
  {
    HasPrefix(s, IFNAME) && Find(s, 0, ' ').None?
  }

  /** The text the caller receives for the `nread` characters `s` of an event
      (the buffer holds its terminator at index |s|). */
  function Normalize(s: seq<char>): seq<char>
  {
    if HasPrefix(s, IFNAME) then
      match Find(s, 0, ' ')
      case None => WPA_EVENT_IGNORE
      case Some(m) =>
        if m + 1 < |s| && s[m + 1] == '<' then
          match Find(s, m + 2, '>')
          case None => s
          case Some(m2) => s[..m + 1] + s[m2 + 1..]
        else s
    else if 0 < |s| && s[0] == '<' then
      match Find(s, 0, '>')
      case None => s
      case Some(m) => s[m + 1..]
    else s
  }

  // ---------------------------------------------------------------------------
  // What the normaliser does to each shape of event

  /** `IFNAME=iface <N>rest` becomes `IFNAME=iface rest`, shorter by the width of `<N>`. */
  lemma TaggedIfnameEvent(iface: string, level: string, rest: string)
    requires ' ' !in iface && NUL !in iface
    requires '>' !in level && NUL !in level
    ensures var s := IFNAME + iface + " <" + level + ">" + rest;
            Normalize(s) == IFNAME + iface + " " + rest &&
            |Normalize(s)| == |s| - (|level| + 2)
  {
    var s := IFNAME + iface + " <" + level + ">" + rest;
    var m := |IFNAME| + |iface|;
    var m2 := m + 2 + |level|;
    IfnameSpace(iface, " <" + level + ">" + rest);
    StartsWithIfname(iface, " <" + level + ">" + rest);
    assert s == IFNAME + iface + (" <" + level + ">" + rest);
    LevelClose(s, m, level, rest);
    IfnameCases(s, m);
    assert s[..m + 1] == IFNAME + iface + " ";
    assert s[m2 + 1..] == rest;
  }

  /** In `IFNAME=iface t` the first space is the one after `iface`. */
  lemma IfnameSpace(iface: string, t: string)
    requires ' ' !in iface && NUL !in iface
    requires 0 < |t| && t[0] == ' '
    ensures Find(IFNAME + iface + t, 0, ' ') == Some(|IFNAME| + |iface|)
  {
    NoSpaceInPrefix(iface);
    FirstAfter(IFNAME + iface, t, ' ');
  }

  /** `IFNAME=iface t` starts with `IFNAME=`. */
  lemma StartsWithIfname(iface: string, t: string)
    ensures HasPrefix(IFNAME + iface + t, IFNAME)
  {
    var s := IFNAME + iface + t;
    assert s[..|IFNAME|] == IFNAME;
  }

  /** `IFNAME=iface` holds no space and no NUL when `iface` holds neither. */
  lemma NoSpaceInPrefix(iface: string)
    requires ' ' !in iface && NUL !in iface
    ensures ' ' !in IFNAME + iface && NUL !in IFNAME + iface
  {
    var p := IFNAME + iface;
    forall j | 0 <= j < |p| ensures p[j] != ' ' && p[j] != NUL {
      if j < |IFNAME| { assert p[j] == IFNAME[j]; } else { assert p[j] == iface[j - |IFNAME|]; }
    }
  }

  /** In `p + t`, a `c` at the front of `t` is the first one when `p` holds no `c`
      and no NUL. */
  lemma FirstAfter(p: seq<char>, t: seq<char>, c: char)
    requires c != NUL && c !in p && NUL !in p
    requires 0 < |t| && t[0] == c
    ensures Find(p + t, 0, c) == Some(|p|)
  {
    var s := p + t;
    forall j | 0 <= j < |p| ensures s[j] != c && s[j] != NUL {
      assert s[j] == p[j];
    }
    FindAt(s, 0, |p|, c);
  }

  /** After ` <level` at `m`, the `>` closing the level is the first one. */
  lemma LevelClose(s: seq<char>, m: nat, level: string, rest: string)
    requires '>' !in level && NUL !in level
    requires m <= |s| && s[m..] == " <" + level + ">" + rest
    ensures m + 1 < |s| && s[m + 1] == '<'
    ensures Find(s, m + 2, '>') == Some(m + 2 + |level|)
  {
    var m2 := m + 2 + |level|;
    assert s[m + 1] == s[m..][1];
    forall j | m + 2 <= j < m2 ensures s[j] != '>' && s[j] != NUL {
      assert s[j] == s[m..][j - m] == level[j - m - 2];
    }
    assert s[m2] == s[m..][m2 - m] == '>';
    FindAt(s, m + 2, m2, '>');
  }

  /** `<N>rest` (no `IFNAME=` prefix) becomes `rest`, shorter by the width of `<N>`. */
  lemma BareTaggedEvent(level: string, rest: string)
    requires '>' !in level && NUL !in level
    ensures var s := "<" + level + ">" + rest;
            Normalize(s) == rest && |Normalize(s)| == |s| - (|level| + 2)
  {
    var s := "<" + level + ">" + rest;
    var m := 1 + |level|;
    assert s[0] == '<';
    assert !HasPrefix(s, IFNAME) by { assert s[0] != IFNAME[0]; }
    forall j | 0 <= j < m ensures s[j] != '>' && s[j] != NUL {
      if j > 0 { assert s[j] == level[j - 1]; }
    }
    assert s[m] == '>';
    FindAt(s, 0, m, '>');
    assert s[m + 1..] == rest;
  }

  /** `IFNAME=iface rest` with no `<` right after the space is left unchanged. */
  lemma UntaggedIfnameEvent(iface: string, rest: string)
    requires ' ' !in iface && NUL !in iface
    requires rest == [] || rest[0] != '<'
    ensures var s := IFNAME + iface + " " + rest; Normalize(s) == s
  {
    var s := IFNAME + iface + " " + rest;
    var m := |IFNAME| + |iface|;
    forall j | 0 <= j < m ensures s[j] != ' ' && s[j] != NUL {
      if j < |IFNAME| { assert s[j] == IFNAME[j]; } else { assert s[j] == iface[j - |IFNAME|]; }
    }
    assert s[m] == ' ';
    FindAt(s, 0, m, ' ');
    assert HasPrefix(s, IFNAME);
    if m + 1 < |s| { assert s[m + 1] == rest[0]; }
  }

  /** `IFNAME=iface <rest` whose tag never closes is left unchanged. */
  lemma UnclosedIfnameTag(iface: string, rest: string)
    requires ' ' !in iface && NUL !in iface
    requires '>' !in rest
    ensures var s := IFNAME + iface + " <" + rest; Normalize(s) == s
  {
    var s := IFNAME + iface + " <" + rest;
    var m := |IFNAME| + |iface|;
    forall j | 0 <= j < m ensures s[j] != ' ' && s[j] != NUL {
      if j < |IFNAME| { assert s[j] == IFNAME[j]; } else { assert s[j] == iface[j - |IFNAME|]; }
    }
    assert s[m] == ' ' && s[m + 1] == '<';
    FindAt(s, 0, m, ' ');
    forall j | m + 2 <= j < |s| ensures s[j] != '>' {
      assert s[j] == rest[j - m - 2];
    }
    FindAbsent(s, m + 2, '>');
    assert HasPrefix(s, IFNAME);
  }

  /** `<rest` whose tag never closes is left unchanged. */
  lemma UnclosedBareTag(rest: string)
    requires '>' !in rest
    ensures Normalize("<" + rest) == "<" + rest
  {
    var s := "<" + rest;
    assert !HasPrefix(s, IFNAME) by { assert s[0] != IFNAME[0]; }
    forall j | 0 <= j < |s| ensures s[j] != '>' {
      if j > 0 { assert s[j] == rest[j - 1]; }
    }
    FindAbsent(s, 0, '>');
  }

  /** An event with neither an `IFNAME=` prefix nor a leading `<` passes through. */
  lemma UnprefixedEvent(s: seq<char>)
    requires !HasPrefix(s, IFNAME)
    requires s == [] || s[0] != '<'
    ensures Normalize(s) == s
  {
  }

  /** `IFNAME=t` with no space before the terminator becomes the ignore marker. */
  lemma MalformedIfnameEvent(t: seq<char>)
    requires forall j :: 0 <= j < StrEnd(t, 0) ==> t[j] != ' '
    ensures Malformed(IFNAME + t)
    ensures Normalize(IFNAME + t) == WPA_EVENT_IGNORE
  {
    var s := IFNAME + t;
    var e := StrEnd(t, 0);
    forall j | 0 <= j < |IFNAME| + e ensures s[j] != ' ' && s[j] != NUL {
      if j < |IFNAME| { assert s[j] == IFNAME[j]; } else { assert s[j] == t[j - |IFNAME|]; }
    }
    if e < |t| {
      assert s[|IFNAME| + e] == NUL;
    }
    assert StrEnd(s, 0) == |IFNAME| + e by { StrEndAt(s, 0, |IFNAME| + e); }
    assert HasPrefix(s, IFNAME);
  }

  /** The terminator `strchr` and `strlen` stop at, located by its defining properties. */
  lemma StrEndAt(s: seq<char>, from: nat, e: nat)
    requires from <= e <= |s|
    requires forall j :: from <= j < e ==> s[j] != NUL
    requires e < |s| ==> s[e] == NUL
    ensures StrEnd(s, from) == e
  {
  }

  /** Normalising only ever cuts one contiguous span out of the event, or replaces
      a malformed `IFNAME=` event by the ignore marker: it never adds, reorders or
      invents characters, so its length never grows past `nread`. */
  lemma NormalizeExcisesOneSpan(s: seq<char>)
    ensures Malformed(s) ==> Normalize(s) == WPA_EVENT_IGNORE
    ensures !Malformed(s) ==> exists a, b :: 0 <= a <= b <= |s| && Normalize(s) == s[..a] + s[b..]
    ensures !Malformed(s) ==> |Normalize(s)| <= |s|
  {
    if !Malformed(s) {
      var a, b := |s|, |s|;
      if HasPrefix(s, IFNAME) {
        var m := Find(s, 0, ' ').value;
        IfnameCases(s, m);
        if m + 1 < |s| && s[m + 1] == '<' && Find(s, m + 2, '>').Some? {
          a, b := m + 1, Find(s, m + 2, '>').value + 1;
        }
      } else {
        OtherCases(s);
        if 0 < |s| && s[0] == '<' && Find(s, 0, '>').Some? {
          a, b := 0, Find(s, 0, '>').value + 1;
        }
      }
      assert Normalize(s) == s[..a] + s[b..];
    }
  }

  /** Normalising is not idempotent: one pass strips one tag only. */
  lemma NotIdempotent()
    ensures Normalize("<1><2>X") == "<2>X"
    ensures Normalize(Normalize("<1><2>X")) == "X"
  {
    assert "<1><2>X" == "<" + "1" + ">" + "<2>X";
    BareTaggedEvent("1", "<2>X");
    assert "<2>X" == "<" + "2" + ">" + "X";
    BareTaggedEvent("2", "X");
  }

  /** The documented tagged `IFNAME=` event. */
  lemma ConnectedExample(raw: string)
    requires raw == "IFNAME=wlan0 <3>CTRL-EVENT-CONNECTED"
    ensures Normalize(raw) == IFNAME + "wlan0" + " " + "CTRL-EVENT-CONNECTED"
  {
    var iface, level, event := "wlan0", "3", "CTRL-EVENT-CONNECTED";
    assert raw == IFNAME + iface + " <" + level + ">" + event;
    TaggedIfnameEvent(iface, level, event);
  }

  /** The documented bare tagged event. */
  lemma DisconnectedExample()
    ensures Normalize("<2>CTRL-EVENT-DISCONNECTED") == "CTRL-EVENT-DISCONNECTED"
  {
    var event := "CTRL-EVENT-DISCONNECTED";
    assert "<2>CTRL-EVENT-DISCONNECTED" == "<" + "2" + ">" + event;
    BareTaggedEvent("2", event);
  }

  // ---------------------------------------------------------------------------
  // The in-place algorithm

  /** `strchr(buf + from, c)` on a buffer whose C string is terminated at `buf[n]`:
      it reads only `buf[from..n]`. */
  method StrChr(buf: array<char>, from: nat, c: char, ghost n: nat) returns (r: Option<nat>)
    requires from <= n < buf.Length && buf[n] == NUL && c != NUL
    ensures r == Find(buf[..n], from, c)
    ensures r.Some? ==> r.value < n
  {
    ghost var s := buf[..n];
    var i := from;
    while buf[i] != NUL && buf[i] != c
      invariant from <= i <= n
      invariant Find(s, from, c) == Find(s, i, c)
      decreases n - i
    {
      i := i + 1;
    }
    if buf[i] == c {
      r := Some(i);
    } else {
      r := None;
    }
  }

  /** `memmove(buf + dst, buf + src, count)` for a move towards the front: the
      destination range receives the source range, and every other cell keeps
      its value. */
  method MoveLeft(buf: array<char>, dst: nat, src: nat, count: nat)
    requires dst <= src && src + count <= buf.Length
    modifies buf
    ensures buf[..dst] == old(buf[..dst])
    ensures buf[dst..dst + count] == old(buf[src..src + count])
    ensures buf[dst + count..] == old(buf[dst + count..])
  {
    var i := 0;
    while i < count
      invariant 0 <= i <= count
      invariant forall k :: 0 <= k < buf.Length ==>
                  buf[k] == if dst <= k < dst + i then old(buf[k - dst + src]) else old(buf[k])
    {
      buf[dst + i] := buf[src + i];
      i := i + 1;
    }
    MovedSlices(buf[..], old(buf[..]), dst, src, count);
  }

  /** The cell-by-cell effect of a front-ward move, read as slices. */
  lemma MovedSlices(b: seq<char>, ob: seq<char>, dst: nat, src: nat, count: nat)
    requires |b| == |ob| && dst <= src && src + count <= |ob|
    requires forall k {:trigger b[k]} :: 0 <= k < |b| ==>
               b[k] == if dst <= k < dst + count then ob[k - dst + src] else ob[k]
    ensures b[..dst] == ob[..dst]
    ensures b[dst..dst + count] == ob[src..src + count]
    ensures b[dst + count..] == ob[dst + count..]
  {
    var moved, source := b[dst..dst + count], ob[src..src + count];
    forall k | 0 <= k < count ensures moved[k] == source[k] {
      assert b[dst + k] == ob[src + k];
    }
    assert moved == source;
    var tail := b[dst + count..];
    forall k | 0 <= k < |tail| ensures tail[k] == ob[dst + count..][k] {
      assert b[dst + count + k] == ob[dst + count + k];
    }
    assert tail == ob[dst + count..];
    forall k | 0 <= k < dst ensures b[..dst][k] == ob[..dst][k] {
      assert b[k] == ob[k];
    }
    assert b[..dst] == ob[..dst];
  }

  /** The arguments of one `memmove`. */
  datatype Move = Move(dst: nat, src: nat, count: nat)

  /** The move that excises the tag `buf[m + 1..m2 + 1]` of an `IFNAME=` event of
      `nread` characters (space at `m`, `>` at `m2`): the rest of the event and its
      terminator slide down to `m + 1`. */
  function IfnameShift(nread: nat, m: nat, m2: nat): (mv: Move)
    requires m + 2 <= m2 < nread
    ensures mv.dst == m + 1 && mv.src == m2 + 1
    ensures mv.src + mv.count == nread + 1
    ensures mv.dst + mv.count == nread - (m2 - m) + 1
  {
    Move(m + 1, m2 + 1, nread - (m2 - m) - m)
  }

  /** The move as wifi.cpp:438-439 computes it: one byte more than `IfnameShift`,
      so that it reads `buf[nread + 1]`, past the terminator. */
  function IfnameShiftAsWritten(nread: nat, m: nat, m2: nat): (mv: Move)
    requires m + 2 <= m2 < nread
    ensures mv.dst == m + 1 && mv.src == m2 + 1
    ensures mv.src + mv.count == nread + 2
    ensures mv.count == IfnameShift(nread, m, m2).count + 1
  {
    var len := nread - (m2 - m);
    Move(m + 1, m2 + 1, len - m + 1)
  }

  /** The move as written reads `buf[nread + 1]`, one past the terminator. For the
      13-character event below, received into a 14-character buffer (so that
      `nread == buflen - 1`, the largest `wpa_ctrl_recv` may report), that is one
      past the end of the buffer. */
  lemma AsWrittenReadsPastBuffer()
    ensures var s := "IFNAME=w <3>X";
            var buflen := 14;
            |s| == buflen - 1 &&
            Find(s, 0, ' ') == Some(8) && Find(s, 10, '>') == Some(11) &&
            var mv := IfnameShiftAsWritten(|s|, 8, 11);
            mv.src + mv.count == buflen + 1 && mv.src + mv.count > buflen
  {
    var s := "IFNAME=w <3>X";
    FindAt(s, 0, 8, ' ');
    FindAt(s, 10, 11, '>');
  }

  /** The move as intended never reads past the terminator at `buf[nread]`, so it
      stays inside every buffer `recv` can fill. */
  lemma IfnameShiftInBounds(nread: nat, m: nat, m2: nat, buflen: nat)
    requires m + 2 <= m2 < nread < buflen
    ensures var mv := IfnameShift(nread, m, m2);
            mv.src + mv.count <= buflen && mv.dst + mv.count <= buflen
  {
  }

  /** Lines 438-439: excise the tag `buf[m + 1..m2 + 1]` of an `IFNAME=` event of
      `nread` characters terminated at `buf[nread]`, keeping `IFNAME=iface `. */
  method ExciseIfnameTag(buf: array<char>, nread: nat, m: nat, m2: nat) returns (len: nat)
    requires m + 2 <= m2 < nread < buf.Length && buf[nread] == NUL
    modifies buf
    ensures len == nread - (m2 - m)
    ensures buf[..len] == old(buf[..nread])[..m + 1] + old(buf[..nread])[m2 + 1..] && buf[len] == NUL
    ensures forall k :: nread < k < buf.Length ==> buf[k] == old(buf[k])
  {
    len := nread - (m2 - m);
    var mv := IfnameShift(nread, m, m2);
    ghost var ob := buf[..];
    MoveLeft(buf, mv.dst, mv.src, mv.count);
    Spliced(buf[..], ob, mv.dst, mv.src, mv.count, nread, len);
  }

  /** Lines 448-449: drop `buf[..m + 1]`, the tag of an event without
      `IFNAME=`, from `nread` characters terminated at `buf[nread]`. */
  method ExciseBareTag(buf: array<char>, nread: nat, m: nat) returns (len: nat)
    requires m < nread < buf.Length && buf[nread] == NUL
    modifies buf
    ensures len == nread - (m + 1)
    ensures buf[..len] == old(buf[..nread])[m + 1..] && buf[len] == NUL
    ensures forall k :: nread < k < buf.Length ==> buf[k] == old(buf[k])
  {
    len := nread - (m + 1);
    ghost var ob := buf[..];
    MoveLeft(buf, 0, m + 1, len + 1);
    Spliced(buf[..], ob, 0, m + 1, len + 1, nread, len);
    assert ob[..nread][..0] + ob[..nread][m + 1..] == ob[..nread][m + 1..];
  }

  /** After the terminated tail `ob[src..nread + 1]` moved down to `dst`, the
      buffer holds `ob[..dst] + ob[src..nread]`, terminated, and is unchanged past `nread`. */
  lemma Spliced(b: seq<char>, ob: seq<char>, dst: nat, src: nat, count: nat, nread: nat, len: nat)
    requires dst <= src <= nread < |b| == |ob| && count == nread + 1 - src && len == nread - (src - dst)
    requires b[..dst] == ob[..dst] && b[dst..dst + count] == ob[src..src + count]
    requires b[dst + count..] == ob[dst + count..]
    ensures b[..len] == ob[..nread][..dst] + ob[..nread][src..] && b[len] == ob[nread]
    ensures forall k {:trigger b[k]} :: nread < k < |b| ==> b[k] == ob[k]
  {
    assert b[..len] == b[..dst] + b[dst..len];
    assert b[dst..len] == b[dst..dst + count][..count - 1];
    assert ob[..nread][src..] == ob[src..src + count][..count - 1];
    assert b[len] == b[dst..dst + count][count - 1];
    forall k | nread < k < |b| ensures b[k] == ob[k] {
      assert b[k] == b[dst + count..][k - (dst + count)];
    }
  }

  /** The normaliser's contract for a buffer whose `nread` characters `s` are
      already terminated: `buf` holds `Normalize(s)` as a C string, `len` is its
      untruncated length, and nothing past `buf[nread]` changes except where the
      ignore marker is written. */
  ghost predicate Normalized(b: seq<char>, old_b: seq<char>, s: seq<char>, nread: nat, len: int)
    requires nread < |b| == |old_b|
  {
    len == |Normalize(s)| &&
    HoldsCString(b, Normalize(s)) &&
    (!Malformed(s) ==> len <= nread) &&
    forall k :: Max(nread, Min(len, |b| - 1)) < k < |b| ==> b[k] == old_b[k]
  }

  /** What `Normalize` does to an `IFNAME=` event whose first space is at `m`. */
  lemma IfnameCases(s: seq<char>, m: nat)
    requires HasPrefix(s, IFNAME) && Find(s, 0, ' ') == Some(m)
    ensures !Malformed(s)
    ensures !(m + 1 < |s| && s[m + 1] == '<') ==> Normalize(s) == s
    ensures m + 1 < |s| && s[m + 1] == '<' && Find(s, m + 2, '>').None? ==> Normalize(s) == s
    ensures m + 1 < |s| && s[m + 1] == '<' && Find(s, m + 2, '>').Some? ==>
              Normalize(s) == s[..m + 1] + s[Find(s, m + 2, '>').value + 1..]
  {
  }

  /** What `Normalize` does to an event without the `IFNAME=` prefix. */
  lemma OtherCases(s: seq<char>)
    requires !HasPrefix(s, IFNAME)
    ensures !Malformed(s)
    ensures !(0 < |s| && s[0] == '<') ==> Normalize(s) == s
    ensures 0 < |s| && s[0] == '<' && Find(s, 0, '>').None? ==> Normalize(s) == s
    ensures 0 < |s| && s[0] == '<' && Find(s, 0, '>').Some? ==> Normalize(s) == s[Find(s, 0, '>').value + 1..]
  {
  }

  /** A well-formed event rewritten to `t == Normalize(s)` and terminated, with
      nothing past `nread` touched, meets the normaliser's contract. */
  lemma RewrittenNormalized(b: seq<char>, old_b: seq<char>, s: seq<char>, nread: nat, t: seq<char>)
    requires nread < |b| == |old_b|
    requires !Malformed(s) && t == Normalize(s) && |t| <= nread
    requires b[..|t|] == t && b[|t|] == NUL
    requires forall k :: nread < k < |b| ==> b[k] == old_b[k]
    ensures Normalized(b, old_b, s, nread, |t|)
  {
    HoldsWhole(b, t);
  }

  /** Lines 433-444: an event that starts with `IFNAME=`. */
  method NormalizeIfnameEvent(buf: array<char>, nread: nat) returns (len: int)
    requires nread < buf.Length && buf[nread] == NUL
    requires HasPrefix(buf[..nread], IFNAME)
    modifies buf
    ensures Normalized(buf[..], old(buf[..]), old(buf[..nread]), nread, len)
  {
    ghost var s := buf[..nread];
    var match1 := StrChr(buf, 0, ' ', nread);
    if match1.None? {
      assert NUL !in WPA_EVENT_IGNORE;
      len := FormatInto(buf, WPA_EVENT_IGNORE);
      assert Normalize(s) == WPA_EVENT_IGNORE;
    } else {
      len := NormalizeIfnameTag(buf, nread, match1.value);
    }
  }

  /** Lines 435-441: an `IFNAME=` event whose first space is at `m`. */
  method NormalizeIfnameTag(buf: array<char>, nread: nat, m: nat) returns (len: int)
    requires nread < buf.Length && buf[nread] == NUL
    requires HasPrefix(buf[..nread], IFNAME) && Find(buf[..nread], 0, ' ') == Some(m)
    modifies buf
    ensures Normalized(buf[..], old(buf[..]), old(buf[..nread]), nread, len)
  {
    if buf[m + 1] == '<' {
      len := NormalizeIfnameLevel(buf, nread, m);
    } else {
      ghost var s := buf[..nread];
      IfnameCases(s, m);
      len := nread;
      RewrittenNormalized(buf[..], old(buf[..]), s, nread, s);
    }
  }

  /** Lines 436-440: the space at `m` is followed by the `<` of a level tag. */
  method NormalizeIfnameLevel(buf: array<char>, nread: nat, m: nat) returns (len: int)
    requires nread < buf.Length && buf[nread] == NUL
    requires HasPrefix(buf[..nread], IFNAME) && Find(buf[..nread], 0, ' ') == Some(m)
    requires buf[m + 1] == '<'
    modifies buf
    ensures Normalized(buf[..], old(buf[..]), old(buf[..nread]), nread, len)
  {
    ghost var s := buf[..nread];
    IfnameCases(s, m);
    var match2 := StrChr(buf, m + 2, '>', nread);
    if match2.Some? {
      len := ExciseIfnameTag(buf, nread, m, match2.value);
      RewrittenNormalized(buf[..], old(buf[..]), s, nread, buf[..len]);
    } else {
      len := nread;
      RewrittenNormalized(buf[..], old(buf[..]), s, nread, s);
    }
  }

  /** Lines 445-458: an event that does not start with `IFNAME=`. */
  method NormalizeOtherEvent(buf: array<char>, nread: nat) returns (len: int)
    requires nread < buf.Length && buf[nread] == NUL
    requires !HasPrefix(buf[..nread], IFNAME)
    modifies buf
    ensures Normalized(buf[..], old(buf[..]), old(buf[..nread]), nread, len)
  {
    ghost var s := buf[..nread];
    OtherCases(s);
    if buf[0] == '<' {
      var match1 := StrChr(buf, 0, '>', nread);
      if match1.Some? {
        len := ExciseBareTag(buf, nread, match1.value);
        RewrittenNormalized(buf[..], old(buf[..]), s, nread, buf[..len]);
      } else {
        len := nread;
        RewrittenNormalized(buf[..], old(buf[..]), s, nread, s);
      }
    } else {
      len := nread;
      RewrittenNormalized(buf[..], old(buf[..]), s, nread, s);
    }
  }

  /** Lines 412 and 432-460 of `wifi_wait_on_socket`: terminate the `nread`
      received characters, then rewrite them in place. The buffer afterwards holds
      `Normalize` of what was received, as a C string (the ignore marker truncated
      as `snprintf` would), the result is its untruncated length, and nothing past
      `buf[nread]` is touched except by the ignore marker. */
  method NormalizeInPlace(buf: array<char>, nread: nat) returns (len: int)
    requires nread < buf.Length
    modifies buf
    ensures len == |Normalize(old(buf[..nread]))|
    ensures HoldsCString(buf[..], Normalize(old(buf[..nread])))
    ensures !Malformed(old(buf[..nread])) ==> len <= nread
    ensures forall k :: Max(nread, Min(len, buf.Length - 1)) < k < buf.Length ==> buf[k] == old(buf[k])
  {
    ghost var s := buf[..nread];
    buf[nread] := NUL;
    assert buf[..nread] == s;
    if nread >= |IFNAME| && buf[..|IFNAME|] == IFNAME {
      assert s[..|IFNAME|] == buf[..|IFNAME|];
      len := NormalizeIfnameEvent(buf, nread);
    } else {
      assert !HasPrefix(s, IFNAME) by {
        if nread >= |IFNAME| { assert s[..|IFNAME|] == buf[..|IFNAME|]; }
      }
      len := NormalizeOtherEvent(buf, nread);
    }
  }
}
