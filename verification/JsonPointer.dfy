/**
 * JSON Pointer (RFC 6901): the escaping the diff uses for object members
 * (qualification/section-2/probe-corpus.py, line 53), evaluation by sections 3 and
 * 4 of the RFC, and writing and removing at a pointer.
 */
module JsonPointer {
  import opened Wrappers
  import opened Strings
  import opened Json

  // ---------------------------------------------------------------- escaping

  /** `s.replace(c, t)` for one character. */
  function ReplaceChar(s: string, c: char, t: string): string {
    if s == "" then "" else (if s[0] == c then t else [s[0]]) + ReplaceChar(s[1..], c, t)
  }

  function Escape(key: string): string {
    ReplaceChar(ReplaceChar(key, '~', "~0"), '/', "~1")
  }

  /** Every occurrence of a tilde and the digit becomes c. */
  function ReplacePair(s: string, digit: char, c: char): string {
    if |s| < 2 then s
    else if s[0] == '~' && s[1] == digit then [c] + ReplacePair(s[2..], digit, c)
    else [s[0]] + ReplacePair(s[1..], digit, c)
  }

  /** Section 4: first ~1 becomes /, then ~0 becomes ~. */
  function Unescape(token: string): string {
    ReplacePair(ReplacePair(token, '1', '/'), '0', '~')
  }

  predicate Free(c: char, s: string) { forall i :: 0 <= i < |s| ==> s[i] != c }

  lemma FreeTail(c: char, s: string)
    requires s != ""
    ensures Free(c, s) <==> s[0] != c && Free(c, s[1..])
  {
    if s[0] != c && Free(c, s[1..]) {
      forall i | 0 <= i < |s| ensures s[i] != c {
        if i > 0 {
          assert s[1..][i - 1] != c;
        }
      }
    }
  }

  lemma ReplaceTwo(a: char, b: char, rest: string, c: char, t: string)
    requires a != c && b != c
    ensures ReplaceChar([a, b] + rest, c, t) == [a, b] + ReplaceChar(rest, c, t)
  {
    assert ([a, b] + rest)[1..] == [b] + rest;
    assert ([b] + rest)[1..] == rest;
  }

  lemma EscapeStep(key: string)
    requires key != ""
    ensures Escape(key) == (if key[0] == '~' then "~0" else if key[0] == '/' then "~1" else [key[0]])
                           + Escape(key[1..])
  {
    var rest := ReplaceChar(key[1..], '~', "~0");
    if key[0] == '~' {
      ReplaceTwo('~', '0', rest, '/', "~1");
    } else {
      assert ([key[0]] + rest)[1..] == rest;
    }
  }

  lemma PairKept(x: char, y: char, rest: string, digit: char, c: char)
    requires x == '~' && y != digit && y != '~'
    ensures ReplacePair([x, y] + rest, digit, c) == [x, y] + ReplacePair(rest, digit, c)
  {
    assert ([x, y] + rest)[1..] == [y] + rest;
    CharKept(y, rest, digit, c);
  }

  lemma CharKept(x: char, rest: string, digit: char, c: char)
    requires x != '~'
    ensures ReplacePair([x] + rest, digit, c) == [x] + ReplacePair(rest, digit, c)
  {
    assert ([x] + rest)[1..] == rest;
  }

  lemma PairReplaced(rest: string, digit: char, c: char)
    ensures ReplacePair(['~', digit] + rest, digit, c) == [c] + ReplacePair(rest, digit, c)
  {
    assert (['~', digit] + rest)[2..] == rest;
  }

  /** The first pass of evaluation undoes the second replacement. */
  lemma {:induction false} FirstPass(key: string)
    ensures ReplacePair(Escape(key), '1', '/') == ReplaceChar(key, '~', "~0")
  {
    if key != "" {
      EscapeStep(key);
      FirstPass(key[1..]);
      if key[0] == '~' {
        PairKept('~', '0', Escape(key[1..]), '1', '/');
      } else if key[0] == '/' {
        PairReplaced(Escape(key[1..]), '1', '/');
      } else {
        CharKept(key[0], Escape(key[1..]), '1', '/');
      }
    }
  }

  lemma {:induction false} SecondPass(key: string)
    ensures ReplacePair(ReplaceChar(key, '~', "~0"), '0', '~') == key
  {
    if key != "" {
      var rest := ReplaceChar(key[1..], '~', "~0");
      SecondPass(key[1..]);
      if key[0] == '~' {
        PairReplaced(rest, '0', '~');
      } else {
        CharKept(key[0], rest, '0', '~');
      }
      assert [key[0]] + key[1..] == key;
    }
  }

  /** Evaluation recovers every key, tildes and slashes included. */
  lemma EscapeRoundTrip(key: string)
    ensures Unescape(Escape(key)) == key && Free('/', Escape(key))
  {
    FirstPass(key);
    SecondPass(key);
    EscapeSlashFree(key);
  }

  lemma {:induction false} EscapeSlashFree(key: string)
    ensures Free('/', Escape(key))
  {
    if key != "" {
      EscapeStep(key);
      EscapeSlashFree(key[1..]);
    }
  }

  lemma {:induction false} UnescapePlain(s: string)
    requires Free('~', s)
    ensures Unescape(s) == s
  {
    PlainKept(s, '1', '/');
    PlainKept(s, '0', '~');
  }

  lemma {:induction false} PlainKept(s: string, digit: char, c: char)
    requires Free('~', s)
    ensures ReplacePair(s, digit, c) == s
  {
    if |s| >= 2 {
      FreeTail('~', s);
      PlainKept(s[1..], digit, c);
      assert [s[0]] + s[1..] == s;
    }
  }

  // ---------------------------------------------------------------- containers

  /** Section 4: an array index has no leading zero. */
  function ParseIndex(token: string): Option<nat> {
    if token == "" || !AllDigits(token) || (token[0] == '0' && |token| > 1) then None
    else Some(DecimalValue(token))
  }

  lemma IndexRoundTrip(n: nat)
    ensures ParseIndex(Decimal(n)) == Some(n) && Unescape(Decimal(n)) == Decimal(n) && Free('/', Decimal(n))
  {
    DecimalRoundTrip(n);
    UnescapePlain(Decimal(n));
  }

  /** The member a reference token selects. */
  function Member(doc: Json, token: string): (r: Option<Json>)
    ensures r.Some? ==> r.value < doc
  {
    match doc
    case Object(m) => if token in m then Some(m[token]) else None
    case Array(items) =>
      var i :- ParseIndex(token);
      if i < |items| then Some(items[i]) else None
    case _ => None
  }

  /** Replaces or adds a member; an array grows only by one at its end. */
  function Put(doc: Json, token: string, value: Json): Option<Json> {
    match doc
    case Object(m) => Some(Object(m[token := value]))
    case Array(items) =>
      var i :- ParseIndex(token);
      if i < |items| then Some(Array(items[i := value]))
      else if i == |items| then Some(Array(items + [value]))
      else None
    case _ => None
  }

  /** Removes a member; later array elements move down. */
  function Drop(doc: Json, token: string): Option<Json> {
    match doc
    case Object(m) => if token in m then Some(Object(m - {token})) else None
    case Array(items) =>
      var i :- ParseIndex(token);
      if i < |items| then Some(Array(items[..i] + items[i + 1..])) else None
    case _ => None
  }

  // ---------------------------------------------------------------- pointers

  /** The characters before the first slash. */
  function Head(s: string): (h: string)
    ensures |h| <= |s|
  {
    if s == "" || s[0] == '/' then "" else [s[0]] + Head(s[1..])
  }

  predicate Rooted(pointer: string) { pointer == "" || pointer[0] == '/' }

  lemma {:induction false} HeadOfToken(token: string, rest: string)
    requires Free('/', token) && Rooted(rest)
    ensures Head(token + rest) == token && (token + rest)[|token|..] == rest
  {
    if token == "" {
      assert token + rest == rest;
    } else {
      FreeTail('/', token);
      assert (token + rest)[1..] == token[1..] + rest;
      HeadOfToken(token[1..], rest);
      assert [token[0]] + token[1..] == token;
    }
  }

  /** Section 3 and 4: the value a pointer selects, if it selects one. */
  function Evaluate(doc: Json, pointer: string): Option<Json>
    decreases |pointer|
  {
    if pointer == "" then Some(doc)
    else if pointer[0] != '/' then None
    else
      var token := Head(pointer[1..]);
      var member :- Member(doc, Unescape(token));
      Evaluate(member, pointer[1 + |token|..])
  }

  /** Writes a value at a pointer. */
  function Write(doc: Json, pointer: string, value: Json): Option<Json>
    decreases |pointer|
  {
    if pointer == "" then Some(value)
    else if pointer[0] != '/' then None
    else
      var token := Head(pointer[1..]);
      var rest := pointer[1 + |token|..];
      if rest == "" then Put(doc, Unescape(token), value)
      else
        var member :- Member(doc, Unescape(token));
        var changed :- Write(member, rest, value);
        Put(doc, Unescape(token), changed)
  }

  /** Removes what a pointer selects. */
  function Remove(doc: Json, pointer: string): Option<Json>
    decreases |pointer|
  {
    if pointer == "" || pointer[0] != '/' then None
    else
      var token := Head(pointer[1..]);
      var rest := pointer[1 + |token|..];
      if rest == "" then Drop(doc, Unescape(token))
      else
        var member :- Member(doc, Unescape(token));
        var changed :- Remove(member, rest);
        Put(doc, Unescape(token), changed)
  }

  /** A token as it stands in a pointer, and the name it selects. */
  predicate Names(raw: string, token: string) { Free('/', raw) && Unescape(raw) == token }

  lemma SplitPointer(raw: string, rest: string)
    requires Free('/', raw) && Rooted(rest)
    ensures var pointer := "/" + raw + rest;
            Head(pointer[1..]) == raw && pointer[1 + |raw|..] == rest
  {
    var pointer := "/" + raw + rest;
    assert pointer[1..] == raw + rest;
    HeadOfToken(raw, rest);
  }

  lemma EvaluateBelow(doc: Json, raw: string, token: string, rest: string)
    requires Names(raw, token) && Rooted(rest)
    ensures Evaluate(doc, "/" + raw + rest) ==
            match Member(doc, token) case Some(member) => Evaluate(member, rest) case None => None
  {
    SplitPointer(raw, rest);
  }

  lemma WriteBelow(doc: Json, raw: string, token: string, rest: string, value: Json)
    requires Names(raw, token) && Rooted(rest)
    requires rest == "" || Member(doc, token).Some?
    ensures Write(doc, "/" + raw + rest, value) ==
            if rest == "" then Put(doc, token, value)
            else match Write(Member(doc, token).value, rest, value)
                 case Some(changed) => Put(doc, token, changed)
                 case None => None
  {
    SplitPointer(raw, rest);
  }

  lemma RemoveBelow(doc: Json, raw: string, token: string, rest: string)
    requires Names(raw, token) && Rooted(rest)
    requires rest == "" || Member(doc, token).Some?
    ensures Remove(doc, "/" + raw + rest) ==
            if rest == "" then Drop(doc, token)
            else match Remove(Member(doc, token).value, rest)
                 case Some(changed) => Put(doc, token, changed)
                 case None => None
  {
    SplitPointer(raw, rest);
  }

  /** Putting a member back changes nothing; putting twice keeps the last. */
  lemma PutMember(doc: Json, token: string, value: Json, other: Json)
    requires Member(doc, token).Some?
    ensures Put(doc, token, Member(doc, token).value) == Some(doc)
    ensures Put(doc, token, value).Some?
    ensures Member(Put(doc, token, value).value, token) == Some(value)
    ensures Put(Put(doc, token, value).value, token, other) == Put(doc, token, other)
  {
    match doc
    case Object(m) =>
      assert m[token := m[token]] == m;
      assert m[token := value][token := other] == m[token := other];
    case Array(items) =>
      var i := ParseIndex(token).value;
      assert items[i := items[i]] == items;
      assert items[i := value][i := other] == items[i := other];
  }
}
