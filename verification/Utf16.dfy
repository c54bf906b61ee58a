/**
 * UTF-16LE, as RFC 2781 sections 2.1 and 2.2 define it, and the NUL-terminated
 * names the 7z writer stores with it (qualification/section-2/synthetic_7z.py,
 * line 69).
 */
module Utf16 {
  import opened Wrappers
  import opened Bytes
  import opened Sequences
  import opened SevenZipNumber

  /** A Python character: any code point, a surrogate included. */
  type CodePoint = c: int | 0 <= c < 0x11_0000
  type Text = seq<CodePoint>

  predicate IsSurrogate(c: CodePoint) { 0xD800 <= c < 0xE000 }

  /** A surrogate makes `str.encode` raise UnicodeEncodeError. */
  predicate Encodable(t: Text) { forall i :: 0 <= i < |t| ==> !IsSurrogate(t[i]) }

  predicate NulFree(t: Text) { forall i :: 0 <= i < |t| ==> t[i] != 0 }

  function Unit(u: nat): seq<Byte>
    requires u < 0x1_0000
  {
    [u % 0x100, u / 0x100]
  }

  function EncodePoint(c: CodePoint): seq<Byte> {
    if c < 0x1_0000 then Unit(c)
    else
      var u := c - 0x1_0000;
      Unit(0xD800 + u / 0x400) + Unit(0xDC00 + u % 0x400)
  }

  function Encode(t: Text): seq<Byte> {
    FlatMap(EncodePoint, t)
  }

  // ---------------------------------------------------------------- reader

  function ReadUnit(s: seq<Byte>): (r: Option<Parsed<nat>>)
    ensures r.Some? ==> r.value.value < 0x1_0000 && |r.value.rest| + 2 == |s|
  {
    if |s| < 2 then None
    else
      var unit: nat := (s[0] as int) + 0x100 * (s[1] as int);
      Some(Parsed(unit, s[2..]))
  }

  function ReadPoint(s: seq<Byte>): (r: Option<Parsed<CodePoint>>)
    ensures r.Some? ==> |r.value.rest| < |s|
  {
    var first :- ReadUnit(s);
    if !IsSurrogate(first.value) then Some(Parsed(first.value, first.rest))
    else if first.value >= 0xDC00 then None
    else
      var second :- ReadUnit(first.rest);
      if !(0xDC00 <= second.value < 0xE000) then None
      else Some(Parsed(0x1_0000 + 0x400 * (first.value - 0xD800) + (second.value - 0xDC00), second.rest))
  }

  /** Reads one name up to its terminating NUL. */
  function ReadName(s: seq<Byte>): (r: Option<Parsed<Text>>)
    ensures r.Some? ==> |r.value.rest| < |s|
    decreases |s|
  {
    var c :- ReadPoint(s);
    if c.value == 0 then Some(Parsed([], c.rest))
    else
      var more :- ReadName(c.rest);
      Some(Parsed([c.value] + more.value, more.rest))
  }

  function ReadNames(s: seq<Byte>, count: nat): Option<Parsed<seq<Text>>>
    decreases count
  {
    if count == 0 then Some(Parsed([], s))
    else
      var name :- ReadName(s);
      var more :- ReadNames(name.rest, count - 1);
      Some(Parsed([name.value] + more.value, more.rest))
  }

  // ---------------------------------------------------------------- round trip

  lemma PointRoundTrip(c: CodePoint, rest: seq<Byte>)
    requires !IsSurrogate(c)
    ensures ReadPoint(EncodePoint(c) + rest) == Some(Parsed(c, rest))
  {
    var s := EncodePoint(c) + rest;
    if c < 0x1_0000 {
      assert s[2..] == rest;
    } else {
      assert s[2..] == Unit(0xDC00 + (c - 0x1_0000) % 0x400) + rest;
      assert s[2..][2..] == rest;
    }
  }

  /** A NUL inside a name ends it early: reading stops at the first one. */
  lemma {:induction false} NameUpToNul(t: Text, rest: Text, tail: seq<Byte>)
    requires NulFree(t) && Encodable(t)
    ensures ReadName(Encode(t + [0] + rest) + tail) == Some(Parsed(t, Encode(rest) + tail))
  {
    if t == [] {
      assert (t + [0] + rest)[1..] == rest;
      PointRoundTrip(0, Encode(rest) + tail);
      assert Encode(t + [0] + rest) + tail == EncodePoint(0) + (Encode(rest) + tail);
    } else {
      var more := Encode(t[1..] + [0] + rest) + tail;
      assert (t + [0] + rest)[1..] == t[1..] + [0] + rest;
      assert Encode(t + [0] + rest) + tail == EncodePoint(t[0]) + more;
      PointRoundTrip(t[0], more);
      NameUpToNul(t[1..], rest, tail);
      assert [t[0]] + t[1..] == t;
    }
  }

  // ---------------------------------------------------------------- the name list

  /** Every name followed by its terminator. */
  function Terminated(names: seq<Text>): Text {
    if names == [] then [] else names[0] + [0] + Terminated(names[1..])
  }

  predicate AllEncodable(names: seq<Text>) { forall i :: 0 <= i < |names| ==> Encodable(names[i]) }

  predicate AllNulFree(names: seq<Text>) { forall i :: 0 <= i < |names| ==> NulFree(names[i]) }

  function Nuls(t: Text): nat {
    if t == [] then 0 else (if t[0] == 0 then 1 else 0) + Nuls(t[1..])
  }

  lemma {:induction false} NulsConcat(a: Text, b: Text)
    ensures Nuls(a + b) == Nuls(a) + Nuls(b)
  {
    if a == [] {
      assert a + b == b;
    } else {
      NulsConcat(a[1..], b);
      assert (a + b)[1..] == a[1..] + b;
    }
  }

  lemma {:induction false} NulsZero(t: Text)
    ensures Nuls(t) == 0 <==> NulFree(t)
  {
    if t != [] {
      NulsZero(t[1..]);
      assert NulFree(t) <==> t[0] != 0 && NulFree(t[1..]) by {
        assert forall i :: 0 <= i < |t[1..]| ==> t[1..][i] == t[i + 1];
        if NulFree(t[1..]) && t[0] != 0 {
          forall i | 0 <= i < |t| ensures t[i] != 0 {
            if i > 0 {
              assert t[1..][i - 1] != 0;
            }
          }
        }
      }
    }
  }

  lemma {:induction false} TerminatedNuls(names: seq<Text>)
    ensures Nuls(Terminated(names)) >= |names|
    ensures Nuls(Terminated(names)) == |names| <==> AllNulFree(names)
  {
    if names != [] {
      TerminatedNuls(names[1..]);
      NulsConcat(names[0] + [0], Terminated(names[1..]));
      NulsConcat(names[0], [0]);
      NulsZero(names[0]);
      assert Nuls([0]) == 1 + Nuls([]);
      assert AllNulFree(names) <==> NulFree(names[0]) && AllNulFree(names[1..]) by {
        if NulFree(names[0]) && AllNulFree(names[1..]) {
          forall i | 0 <= i < |names| ensures NulFree(names[i]) {
            if i > 0 {
              assert NulFree(names[1..][i - 1]);
            }
          }
        }
      }
    }
  }

  /** Text with a NUL splits at its first one. */
  lemma {:induction false} FirstNul(t: Text) returns (head: Text, rest: Text)
    requires Nuls(t) > 0
    ensures t == head + [0] + rest && NulFree(head)
    ensures Nuls(rest) == Nuls(t) - 1
  {
    if t[0] == 0 {
      head, rest := [], t[1..];
    } else {
      var h, r := FirstNul(t[1..]);
      head, rest := [t[0]] + h, r;
      assert t == head + [0] + rest;
    }
  }

  lemma EncodableConcat(a: Text, b: Text)
    ensures Encodable(a + b) <==> Encodable(a) && Encodable(b)
  {
    if Encodable(a + b) {
      forall i | 0 <= i < |a| ensures !IsSurrogate(a[i]) {
        assert a[i] == (a + b)[i];
      }
      forall i | 0 <= i < |b| ensures !IsSurrogate(b[i]) {
        assert b[i] == (a + b)[|a| + i];
      }
    }
  }

  lemma {:induction false} TerminatedEncodable(names: seq<Text>)
    requires AllEncodable(names)
    ensures Encodable(Terminated(names))
  {
    if names != [] {
      TerminatedEncodable(names[1..]);
      EncodableConcat(names[0] + [0], Terminated(names[1..]));
      EncodableConcat(names[0], [0]);
    }
  }

  /** Reading k names from a text consumes k of its NULs, and all of it only if it has no more. */
  lemma {:induction false} NamesConsume(t: Text, k: nat)
    requires Encodable(t) && Nuls(t) > k
    ensures ReadNames(Encode(t), k).Some? && ReadNames(Encode(t), k).value.rest != []
    decreases k
  {
    if k == 0 {
      assert t != [];
    } else {
      var head, rest := FirstNul(t);
      EncodableConcat(head + [0], rest);
      EncodableConcat(head, [0]);
      NameUpToNul(head, rest, []);
      assert Encode(t) + [] == Encode(t) && Encode(rest) + [] == Encode(rest);
      NamesConsume(rest, k - 1);
    }
  }

  lemma {:induction false} NamesRoundTrip(names: seq<Text>)
    requires AllEncodable(names) && AllNulFree(names)
    ensures ReadNames(Encode(Terminated(names)), |names|) == Some(Parsed(names, []))
  {
    if names != [] {
      NameUpToNul(names[0], Terminated(names[1..]), []);
      assert Encode(Terminated(names)) + [] == Encode(Terminated(names));
      assert Encode(Terminated(names[1..])) + [] == Encode(Terminated(names[1..]));
      NamesRoundTrip(names[1..]);
      assert [names[0]] + names[1..] == names;
    }
  }

  /** The stored names read back, using up the whole block, exactly when no name holds a NUL. */
  lemma NamesReadBack(names: seq<Text>)
    requires AllEncodable(names)
    ensures var r := ReadNames(Encode(Terminated(names)), |names|);
            (r.Some? && r.value.rest == [] <==> AllNulFree(names)) &&
            (AllNulFree(names) ==> r == Some(Parsed(names, [])))
  {
    TerminatedNuls(names);
    if AllNulFree(names) {
      NamesRoundTrip(names);
    } else {
      TerminatedEncodable(names);
      NamesConsume(Terminated(names), |names|);
    }
  }
}
