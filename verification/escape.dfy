/** Escaping cell text for XML character data: the five characters XML 1.0
    reserves for markup (section 4.6, predefined entities) are written as
    entity references, every other byte is kept. `escape_in_place` only finds
    where the reserved bytes are; the row encoder then writes the text between
    them interleaved with the entities. */
module Escape {
  import opened Bytes

  const LessThan: byte := '<' as int
  const GreaterThan: byte := '>' as int
  const Apostrophe: byte := '\'' as int
  const Ampersand: byte := '&' as int
  const Quote: byte := '"' as int

  predicate IsReserved(b: byte)
  {
    b == LessThan || b == GreaterThan || b == Apostrophe || b == Ampersand || b == Quote
  }

  predicate NoReserved(s: seq<byte>)
  {
    forall i :: 0 <= i < |s| ==> !IsReserved(s[i])
  }

  /** The predefined entity references `&lt;`, `&gt;`, `&apos;`, `&amp;` and
      `&quot;`. */
  const LtRef: seq<byte> := ['&' as int, 'l' as int, 't' as int, ';' as int]
  const GtRef: seq<byte> := ['&' as int, 'g' as int, 't' as int, ';' as int]
  const AposRef: seq<byte> := ['&' as int, 'a' as int, 'p' as int, 'o' as int, 's' as int, ';' as int]
  const AmpRef: seq<byte> := ['&' as int, 'a' as int, 'm' as int, 'p' as int, ';' as int]
  const QuotRef: seq<byte> := ['&' as int, 'q' as int, 'u' as int, 'o' as int, 't' as int, ';' as int]

  /** The entity reference standing for a reserved byte. */
  function Entity(b: byte): seq<byte>
    requires IsReserved(b)
  {
    if b == LessThan then LtRef
    else if b == GreaterThan then GtRef
    else if b == Apostrophe then AposRef
    else if b == Ampersand then AmpRef
    else QuotRef
  }

  function EscapeByte(b: byte): seq<byte>
  {
    if IsReserved(b) then Entity(b) else [b]
  }

  /** A cell value as it appears inside `<v>`: each reserved byte replaced by
      its entity, every other byte unchanged. */
  function Escaped(s: seq<byte>): seq<byte>
  {
    if s == [] then [] else Escaped(s[..|s| - 1]) + EscapeByte(s[|s| - 1])
  }

  lemma {:induction false} EscapedAppend(a: seq<byte>, b: seq<byte>)
    ensures Escaped(a + b) == Escaped(a) + Escaped(b)
  {
    if b == [] {
      assert a + b == a;
    } else {
      var p, x := b[..|b| - 1], b[|b| - 1];
      assert (a + b)[..|a + b| - 1] == a + p;
      assert (a + b)[|a + b| - 1] == x;
      assert Escaped(a + b) == Escaped(a + p) + EscapeByte(x);
      assert Escaped(b) == Escaped(p) + EscapeByte(x);
      EscapedAppend(a, p);
      AppendAssoc(Escaped(a), Escaped(p), EscapeByte(x));
    }
  }

  /** Text without reserved bytes is written verbatim. */
  lemma {:induction false} EscapedPlain(s: seq<byte>)
    requires NoReserved(s)
    ensures Escaped(s) == s
  {
    if s != [] {
      EscapedPlain(s[..|s| - 1]);
    }
  }

  predicate StartsWith(s: seq<byte>, p: seq<byte>)
  {
    |p| <= |s| && s[..|p|] == p
  }

  /** Reading escaped text back: each predefined entity reference becomes the
      byte it stands for, every other byte is kept. */
  function Unescape(s: seq<byte>): seq<byte>
    decreases |s|
  {
    if s == [] then []
    else if StartsWith(s, LtRef) then [LessThan] + Unescape(s[4..])
    else if StartsWith(s, GtRef) then [GreaterThan] + Unescape(s[4..])
    else if StartsWith(s, AposRef) then [Apostrophe] + Unescape(s[6..])
    else if StartsWith(s, AmpRef) then [Ampersand] + Unescape(s[5..])
    else if StartsWith(s, QuotRef) then [Quote] + Unescape(s[6..])
    else [s[0]] + Unescape(s[1..])
  }

  lemma StartsWithAppend(p: seq<byte>, rest: seq<byte>)
    ensures StartsWith(p + rest, p)
    ensures (p + rest)[|p|..] == rest
  {
    assert (p + rest)[..|p|] == p;
  }

  /** A text whose byte `i` differs from byte `i` of `p` does not start with `p`. */
  lemma DiffersAt(s: seq<byte>, p: seq<byte>, i: nat)
    requires i < |s| && i < |p| && s[i] != p[i]
    ensures !StartsWith(s, p)
  {
    if |p| <= |s| {
      assert s[..|p|][i] == s[i];
    }
  }

  /** Reading back the escape of one byte followed by anything gives that byte
      followed by the reading of the rest: no entity is mistaken for another,
      and a plain byte never starts one. */
  lemma UnescapeStep(b: byte, rest: seq<byte>)
    ensures Unescape(EscapeByte(b) + rest) == [b] + Unescape(rest)
  {
    var e := EscapeByte(b);
    var s := e + rest;
    StartsWithAppend(e, rest);
    if !IsReserved(b) {
      DiffersAt(s, LtRef, 0);
      DiffersAt(s, GtRef, 0);
      DiffersAt(s, AposRef, 0);
      DiffersAt(s, AmpRef, 0);
      DiffersAt(s, QuotRef, 0);
    } else if b == GreaterThan {
      DiffersAt(s, LtRef, 1);
    } else if b == Apostrophe {
      DiffersAt(s, LtRef, 1);
      DiffersAt(s, GtRef, 1);
    } else if b == Ampersand {
      DiffersAt(s, LtRef, 1);
      DiffersAt(s, GtRef, 1);
      DiffersAt(s, AposRef, 2);
    } else if b == Quote {
      DiffersAt(s, LtRef, 1);
      DiffersAt(s, GtRef, 1);
      DiffersAt(s, AposRef, 1);
      DiffersAt(s, AmpRef, 1);
    }
  }

  /** Escaping loses nothing: the escaped text reads back as the original. */
  lemma {:induction false} UnescapeEscaped(s: seq<byte>)
    ensures Unescape(Escaped(s)) == s
  {
    if s != [] {
      assert s == [s[0]] + s[1..];
      EscapedAppend([s[0]], s[1..]);
      assert Escaped([s[0]]) == EscapeByte(s[0]) by {
        assert [s[0]][..0] == [];
      }
      UnescapeStep(s[0], Escaped(s[1..]));
      UnescapeEscaped(s[1..]);
    }
  }

  /** Bytes that would end character data early: markup delimiters and the
      attribute quotes. */
  predicate NoMarkup(t: seq<byte>)
  {
    forall i :: 0 <= i < |t| ==> t[i] != LessThan && t[i] != GreaterThan && t[i] != Apostrophe && t[i] != Quote
  }

  /** Escaped text contains no '<', '>', ''' or '"': a cell value cannot close
      its `<v>` element or open another tag. */
  lemma {:induction false} EscapedHasNoMarkup(s: seq<byte>)
    ensures NoMarkup(Escaped(s))
  {
    if s != [] {
      EscapedHasNoMarkup(s[..|s| - 1]);
      var e := EscapeByte(s[|s| - 1]);
      assert NoMarkup(e);
      var t := Escaped(s);
      assert t == Escaped(s[..|s| - 1]) + e;
      forall i | 0 <= i < |t|
        ensures t[i] != LessThan && t[i] != GreaterThan && t[i] != Apostrophe && t[i] != Quote
      {
        if i < |Escaped(s[..|s| - 1])| {
          assert t[i] == Escaped(s[..|s| - 1])[i];
        } else {
          assert t[i] == e[i - |Escaped(s[..|s| - 1])|];
        }
      }
    }
  }

  /** The offsets of the reserved bytes among the first `n` bytes of a text,
      left to right. */
  function ReservedBefore(bytes: seq<byte>, n: nat): seq<nat>
    requires n <= |bytes|
  {
    if n == 0 then []
    else ReservedBefore(bytes, n - 1) + (if IsReserved(bytes[n - 1]) then [n - 1] else [])
  }

  /** The offsets of all reserved bytes of a text, left to right. */
  function ReservedPositions(bytes: seq<byte>): seq<nat>
  {
    ReservedBefore(bytes, |bytes|)
  }

  /** ReservedBefore lists, strictly increasing, exactly the offsets below `n`
      that hold a reserved byte. */
  lemma {:induction false} ReservedBeforeExact(bytes: seq<byte>, n: nat)
    requires n <= |bytes|
    ensures forall k :: 0 <= k < |ReservedBefore(bytes, n)| ==>
      ReservedBefore(bytes, n)[k] < n && IsReserved(bytes[ReservedBefore(bytes, n)[k]])
    ensures forall k, l :: 0 <= k < l < |ReservedBefore(bytes, n)| ==>
      ReservedBefore(bytes, n)[k] < ReservedBefore(bytes, n)[l]
    ensures forall i :: 0 <= i < n && IsReserved(bytes[i]) ==> i in ReservedBefore(bytes, n)
  {
    if n > 0 {
      ReservedBeforeExact(bytes, n - 1);
      var ps, qs := ReservedBefore(bytes, n - 1), ReservedBefore(bytes, n);
      if IsReserved(bytes[n - 1]) {
        assert qs == ps + [n - 1];
        forall k | 0 <= k < |qs|
          ensures qs[k] < n && IsReserved(bytes[qs[k]])
        {
          if k < |ps| {
            assert qs[k] == ps[k];
          }
        }
        forall k, l | 0 <= k < l < |qs|
          ensures qs[k] < qs[l]
        {
          assert qs[k] == ps[k];
        }
        forall i | 0 <= i < n && IsReserved(bytes[i])
          ensures i in qs
        {
          if i < n - 1 {
            var k :| 0 <= k < |ps| && ps[k] == i;
            assert qs[k] == i;
          } else {
            assert qs[|ps|] == i;
          }
        }
      } else {
        assert qs == ps;
        forall i | 0 <= i < n && IsReserved(bytes[i])
          ensures i in qs
        {
          assert i < n - 1;
        }
      }
    }
  }

  /** ReservedPositions lists, strictly increasing, exactly the offsets that
      hold a reserved byte. */
  lemma ReservedPositionsExact(bytes: seq<byte>)
    ensures forall k :: 0 <= k < |ReservedPositions(bytes)| ==>
      ReservedPositions(bytes)[k] < |bytes| && IsReserved(bytes[ReservedPositions(bytes)[k]])
    ensures forall k, l :: 0 <= k < l < |ReservedPositions(bytes)| ==>
      ReservedPositions(bytes)[k] < ReservedPositions(bytes)[l]
    ensures forall i :: 0 <= i < |bytes| && IsReserved(bytes[i]) ==> i in ReservedPositions(bytes)
  {
    ReservedBeforeExact(bytes, |bytes|);
  }

  /** What `escape_in_place` returns: a queue of positions, the offsets of the
      reserved bytes of the text in increasing order, and a queue of equal
      length holding, at each place, the entity of the byte at that offset. */
  predicate EscapeQueues(bytes: seq<byte>, chars: seq<seq<byte>>, positions: seq<nat>)
  {
    && positions == ReservedPositions(bytes)
    && |chars| == |positions|
    && (forall k :: 0 <= k < |positions| ==>
          positions[k] < |bytes| && IsReserved(bytes[positions[k]]) && chars[k] == Entity(bytes[positions[k]]))
  }

  /** `escape_in_place`: one left-to-right scan pushing each reserved byte's
      entity and offset onto the back of the two queues. */
  method EscapeInPlace(bytes: seq<byte>) returns (chars: seq<seq<byte>>, positions: seq<nat>)
    ensures EscapeQueues(bytes, chars, positions)
  {
    chars, positions := [], [];
    for x := 0 to |bytes|
      invariant positions == ReservedBefore(bytes, x)
      invariant |chars| == |positions|
      invariant forall k :: 0 <= k < |positions| ==>
          positions[k] < x && IsReserved(bytes[positions[k]]) && chars[k] == Entity(bytes[positions[k]])
    {
      if bytes[x] == LessThan {
        chars, positions := chars + [LtRef], positions + [x];
      } else if bytes[x] == GreaterThan {
        chars, positions := chars + [GtRef], positions + [x];
      } else if bytes[x] == Apostrophe {
        chars, positions := chars + [AposRef], positions + [x];
      } else if bytes[x] == Ampersand {
        chars, positions := chars + [AmpRef], positions + [x];
      } else if bytes[x] == Quote {
        chars, positions := chars + [QuotRef], positions + [x];
      }
    }
  }

  /** The `k`-th reserved offset lies after the previous one and inside the
      text. */
  lemma PositionsIncreasing(bytes: seq<byte>, k: nat)
    requires k < |ReservedPositions(bytes)|
    ensures k > 0 ==> ReservedPositions(bytes)[k - 1] < ReservedPositions(bytes)[k]
    ensures ReservedPositions(bytes)[k] < |bytes|
  {
    ReservedPositionsExact(bytes);
  }

  /** Between two consecutive reserved offsets (or after the last one) the
      text holds no reserved byte. */
  lemma GapIsPlain(bytes: seq<byte>, positions: seq<nat>, k: nat, lo: nat, hi: nat)
    requires positions == ReservedPositions(bytes)
    requires k <= |positions|
    requires lo == (if k == 0 then 0 else positions[k - 1] + 1)
    requires hi == (if k < |positions| then positions[k] else |bytes|)
    requires lo <= hi <= |bytes|
    ensures NoReserved(bytes[lo..hi])
  {
    ReservedPositionsExact(bytes);
    forall i | lo <= i < hi
      ensures !IsReserved(bytes[i])
    {
    }
  }

  /** Escaping up to and including the reserved byte at `p`, when the bytes
      since `current` are plain: the earlier escape, the plain run verbatim,
      then the entity. */
  lemma EscapedThrough(datum: seq<byte>, current: nat, p: nat)
    requires current <= p < |datum|
    requires NoReserved(datum[current..p]) && IsReserved(datum[p])
    ensures Escaped(datum[..p + 1]) == Escaped(datum[..current]) + datum[current..p] + Entity(datum[p])
  {
    var before, run := datum[..current], datum[current..p];
    assert datum[..p + 1][..p] == datum[..p];
    assert datum[..p + 1][p] == datum[p];
    assert Escaped(datum[..p + 1]) == Escaped(datum[..p]) + EscapeByte(datum[p]);
    assert datum[..p] == before + run;
    EscapedAppend(before, run);
    EscapedPlain(run);
    assert Escaped(datum[..p]) == Escaped(before) + run;
  }

  /** Escaping the whole text when the bytes from `current` on are plain. */
  lemma EscapedRest(datum: seq<byte>, current: nat)
    requires current <= |datum|
    requires NoReserved(datum[current..])
    ensures Escaped(datum) == Escaped(datum[..current]) + datum[current..]
  {
    SplitAt(datum, current);
    EscapedAppend(datum[..current], datum[current..]);
    EscapedPlain(datum[current..]);
  }

  /** One round of the reconstruction: the escape up to the `k`-th queued
      position extends the escape up to the previous one by the plain run in
      between and the `k`-th queued entity. */
  lemma QueuedStep(datum: seq<byte>, positions: seq<nat>, k: nat, current: nat)
    requires positions == ReservedPositions(datum)
    requires k < |positions|
    requires current == if k == 0 then 0 else positions[k - 1] + 1
    ensures current <= positions[k] < |datum| && IsReserved(datum[positions[k]])
    ensures Escaped(datum[..positions[k] + 1])
         == Escaped(datum[..current]) + datum[current..positions[k]] + Entity(datum[positions[k]])
  {
    ReservedPositionsExact(datum);
    var p := positions[k];
    PositionsIncreasing(datum, k);
    GapIsPlain(datum, positions, k, current, p);
    EscapedThrough(datum, current, p);
  }

  /** The reconstruction's last write: after the last queued position the text
      is plain. */
  lemma QueuedRest(datum: seq<byte>, positions: seq<nat>, current: nat)
    requires positions == ReservedPositions(datum)
    requires current == if |positions| == 0 then 0 else positions[|positions| - 1] + 1
    requires current <= |datum|
    ensures Escaped(datum) == Escaped(datum[..current]) + datum[current..]
  {
    GapIsPlain(datum, positions, |positions|, current, |datum|);
    SplitAt(datum, current);
    EscapedRest(datum, current);
  }

  /** One write of the reconstruction loop: the run since `current` and the
      `k`-th queued entity extend the escape up to the `k`-th position. */
  lemma AppendPiece(buf: seq<byte>, datum: seq<byte>, chars: seq<seq<byte>>, positions: seq<nat>, k: nat, current: nat)
    requires EscapeQueues(datum, chars, positions)
    requires k < |positions|
    requires current == if k == 0 then 0 else positions[k - 1] + 1
    ensures current <= positions[k] < |datum|
    ensures buf + Escaped(datum[..current]) + (datum[current..positions[k]] + chars[k])
         == buf + Escaped(datum[..positions[k] + 1])
  {
    var p := positions[k];
    QueuedStep(datum, positions, k, current);
    AppendAssoc(Escaped(datum[..current]), datum[current..p], chars[k]);
    AppendAssoc(buf, Escaped(datum[..current]), datum[current..p] + chars[k]);
  }

  /** The last write of the reconstruction: the text after the last queued
      position completes the escape. */
  lemma AppendTail(buf: seq<byte>, datum: seq<byte>, chars: seq<seq<byte>>, positions: seq<nat>, current: nat)
    requires EscapeQueues(datum, chars, positions)
    requires current == if |positions| == 0 then 0 else positions[|positions| - 1] + 1
    requires current <= |datum|
    ensures buf + Escaped(datum[..current]) + datum[current..] == buf + Escaped(datum)
  {
    QueuedRest(datum, positions, current);
    AppendAssoc(buf, Escaped(datum[..current]), datum[current..]);
  }

  /** The reconstruction in `write_row`: for each queued position, the text
      since the previous one followed by the next entity from the queue; then
      the rest of the text. It appends exactly the escaped text. */
  method AppendEscaped(buf: seq<byte>, datum: seq<byte>, chars: seq<seq<byte>>, positions: seq<nat>)
    returns (out: seq<byte>)
    requires EscapeQueues(datum, chars, positions)
    ensures out == buf + Escaped(datum)
    ensures NoReserved(datum) ==> out == buf + datum
  {
    out := buf;
    var current := 0;
    var k := 0;
    while k < |positions|
      invariant k <= |positions|
      invariant current == if k == 0 then 0 else positions[k - 1] + 1
      invariant current <= |datum|
      invariant out == buf + Escaped(datum[..current])
    {
      AppendPiece(buf, datum, chars, positions, k, current);
      out := out + (datum[current..positions[k]] + chars[k]);
      current := positions[k] + 1;
      k := k + 1;
    }
    AppendTail(buf, datum, chars, positions, current);
    out := out + datum[current..];
    if NoReserved(datum) {
      EscapedPlain(datum);
    }
  }

  /** "a<b" escapes to "a&lt;b". */
  lemma EscapedExample()
    ensures Escaped(Ascii("a<b")) == Ascii("a&lt;b")
  {
    var a, lt, b := 'a' as int, LessThan, 'b' as int;
    assert Ascii("a<b") == [a, lt] + [b];
    assert Escaped([a, lt]) == [a] + LtRef by {
      assert [a, lt] == [a] + [lt];
      EscapedAppend([a], [lt]);
      EscapedSingle(a);
      EscapedSingle(lt);
    }
    EscapedAppend([a, lt], [b]);
    EscapedSingle(b);
    assert Ascii("a&lt;b") == [a] + LtRef + [b];
  }

  /** A single byte escapes to its own escape. */
  lemma EscapedSingle(b: byte)
    ensures Escaped([b]) == EscapeByte(b)
  {
    assert [b][..0] == [];
  }

  /** The entity table: `<`, `>`, `'`, `&` and `"` are written as `&lt;`,
      `&gt;`, `&apos;`, `&amp;` and `&quot;`. */
  lemma EscapedAllReserved()
    ensures Escaped([LessThan]) == Ascii("&lt;")
    ensures Escaped([GreaterThan]) == Ascii("&gt;")
    ensures Escaped([Apostrophe]) == Ascii("&apos;")
    ensures Escaped([Ampersand]) == Ascii("&amp;")
    ensures Escaped([Quote]) == Ascii("&quot;")
  {
    EscapedSingle(LessThan);
    EscapedSingle(GreaterThan);
    EscapedSingle(Apostrophe);
    EscapedSingle(Ampersand);
    EscapedSingle(Quote);
  }

  /** For "a<b" the scan reports the single position 1, paired with "&lt;". */
  lemma EscapeQueuesExample(chars: seq<seq<byte>>, positions: seq<nat>)
    requires EscapeQueues(Ascii("a<b"), chars, positions)
    ensures positions == [1] && chars == [LtRef]
  {
    var s := Ascii("a<b");
    assert s == ['a' as int, '<' as int, 'b' as int];
    assert !IsReserved(s[0]) && IsReserved(s[1]) && !IsReserved(s[2]);
    assert ReservedBefore(s, 1) == [];
    assert ReservedBefore(s, 2) == [1];
    assert ReservedBefore(s, 3) == [1];
    assert chars[0] == Entity(s[1]) == LtRef;
  }

  /** The five reserved characters in a row are reserved at every offset. */
  lemma AllReservedPositions()
    ensures Ascii("<>'&\"") == [LessThan, GreaterThan, Apostrophe, Ampersand, Quote]
    ensures ReservedPositions(Ascii("<>'&\"")) == [0, 1, 2, 3, 4]
  {
    var s := Ascii("<>'&\"");
    assert s == [LessThan, GreaterThan, Apostrophe, Ampersand, Quote];
    assert ReservedBefore(s, 2) == [0, 1];
    assert ReservedBefore(s, 4) == [0, 1, 2, 3];
  }

  /** For the five reserved characters in a row the scan reports every
      position, each paired with its own entity. */
  lemma EscapeQueuesAllReserved(chars: seq<seq<byte>>, positions: seq<nat>)
    requires EscapeQueues(Ascii("<>'&\""), chars, positions)
    ensures positions == [0, 1, 2, 3, 4]
    ensures chars == [LtRef, GtRef, AposRef, AmpRef, QuotRef]
  {
    AllReservedPositions();
    var s := Ascii("<>'&\"");
    assert chars[0] == Entity(s[0]) && chars[1] == Entity(s[1]) && chars[2] == Entity(s[2]);
    assert chars[3] == Entity(s[3]) && chars[4] == Entity(s[4]);
  }
}
