/** Redaction of log messages: every `field=value<separator>` of a listed
    field has its value replaced. One pass over a field is the regular
    expression substitution of `field=.*?<separator>` by
    `field=<redaction><separator>`, written out as a left-to-right scan.
    The field and separator are used as literal text, as the regular
    expression reads them when they contain no metacharacter. */
module FilteredLogger {
  import opened Wrappers

  /** The formatter's use of `filter_datum`: the fields it was built
      with, its redaction text and its separator. */
  class RedactingFormatter {
    /** The redaction text and the separator the formatter filters with. */
    static const REDACTION: string := "***"
    static const SEPARATOR: string := ";"

    const fields: seq<string>

    constructor (fields: seq<string>)
      ensures this.fields == fields
    {
      this.fields := fields;
    }

    /** The message of a record once the fields are redacted. */
    method RedactMessage(message: string) returns (r: string)
      requires forall f :: f in fields ==> Plain(f)
      ensures r == FilterAll(fields, REDACTION, message, SEPARATOR)
    {
      r := FilterDatum(fields, REDACTION, message, SEPARATOR);
    }
  }

  /** The characters a regular expression or its replacement template
      treats specially. */
  const META: string := ".^$*+?{}[]\\|()"

  /** Text the substitution reads literally. */
  predicate Plain(s: string)
  {
    forall c :: c in s ==> c !in META
  }

  /** `sep` occurs in `msg` at position `j`. */
  predicate SepAt(msg: string, sep: string, j: nat)
  {
    j <= |msg| && sep <= msg[j..]
  }

  /** Where the lazy `.*?` that starts at `k` stops: the first position
      from `k` on where the separator occurs, provided that no newline lies
      between (`.` does not match a newline). */
  function FindSep(msg: string, sep: string, k: nat): (r: Option<nat>)
    requires k <= |msg|
    decreases |msg| - k
    ensures r.Some? ==> k <= r.value && r.value + |sep| <= |msg| && SepAt(msg, sep, r.value)
    ensures r.Some? ==> '\n' !in msg[k..r.value]
    ensures r.Some? ==> forall j :: k <= j < r.value ==> !SepAt(msg, sep, j)
    ensures r.None? ==> forall j :: k <= j <= |msg| && '\n' !in msg[k..j] ==> !SepAt(msg, sep, j)
  {
    if sep <= msg[k..] then Some(k)
    else if k == |msg| || msg[k] == '\n' then None
    else
      var r := FindSep(msg, sep, k + 1);
      assert forall j :: k + 1 <= j <= |msg| ==> msg[k..j] == [msg[k]] + msg[k + 1..j];
      r
  }

  /** A match of the pattern for `field` starts at the beginning of `msg`. */
  predicate MatchHere(field: string, sep: string, msg: string)
  {
    field + "=" <= msg && FindSep(msg, sep, |field| + 1).Some?
  }

  /** What a match at the start of `msg` is: `field=` is there, and the
      separator follows it somewhere with no newline in between. */
  lemma MatchHereMeans(field: string, sep: string, msg: string)
    ensures MatchHere(field, sep, msg) <==>
              field + "=" <= msg &&
              exists j :: |field| + 1 <= j <= |msg| && '\n' !in msg[|field| + 1..j] && SepAt(msg, sep, j)
  {
    if field + "=" <= msg {
      var f := FindSep(msg, sep, |field| + 1);
      if f.Some? {
        assert |field| + 1 <= f.value <= |msg| && '\n' !in msg[|field| + 1..f.value] && SepAt(msg, sep, f.value);
      }
    }
  }

  /** One substitution pass for `field`: scanning from the left, a match
      becomes `field=` followed by the redaction and the separator, and the
      scan resumes after the separator; elsewhere one character is copied. */
  function Redact(field: string, redaction: string, sep: string, msg: string): (r: string)
    decreases |msg|
    ensures msg == [] ==> r == []
    ensures msg != [] && !MatchHere(field, sep, msg) ==> |r| > 0 && r[0] == msg[0]
  {
    if msg == [] then []
    else if MatchHere(field, sep, msg) then
      var j := FindSep(msg, sep, |field| + 1).value;
      field + "=" + redaction + sep + Redact(field, redaction, sep, msg[j + |sep|..])
    else [msg[0]] + Redact(field, redaction, sep, msg[1..])
  }

  /** The passes for `fields`, in list order, each over the previous
      pass's output. */
  function FilterAll(fields: seq<string>, redaction: string, message: string, sep: string): (r: string)
    ensures fields == [] ==> r == message
    ensures |fields| == 1 ==> r == Redact(fields[0], redaction, sep, message)
  {
    if fields == [] then message
    else Redact(fields[|fields| - 1], redaction, sep, FilterAll(fields[..|fields| - 1], redaction, message, sep))
  }

  /** `filter_datum`: the message after one pass per field. */
  method FilterDatum(fields: seq<string>, redaction: string, message: string, separator: string) returns (r: string)
    requires forall f :: f in fields ==> Plain(f)
    requires Plain(separator) && '\\' !in redaction
    ensures r == FilterAll(fields, redaction, message, separator)
    ensures fields == [] ==> r == message
  {
    r := message;
    for i := 0 to |fields|
      invariant r == FilterAll(fields[..i], redaction, message, separator)
    {
      assert fields[..i + 1][..i] == fields[..i];
      r := Redact(fields[i], redaction, separator, r);
    }
    assert fields[..|fields|] == fields;
  }

  /** Text before the first match is copied unchanged: when no match
      starts inside `p`, the pass over `p + rest` is `p` followed by the
      pass over `rest`. */
  lemma {:induction false} RedactCopiesUnmatched(field: string, redaction: string, sep: string, p: string, rest: string)
    requires forall i :: 0 <= i < |p| ==> !MatchHere(field, sep, (p + rest)[i..])
    ensures Redact(field, redaction, sep, p + rest) == p + Redact(field, redaction, sep, rest)
  {
    if p != [] {
      assert (p + rest)[0..] == p + rest;
      assert !MatchHere(field, sep, p + rest);
      assert (p + rest)[1..] == p[1..] + rest;
      assert Redact(field, redaction, sep, p + rest) == [p[0]] + Redact(field, redaction, sep, p[1..] + rest);
      forall i | 0 <= i < |p[1..]|
        ensures !MatchHere(field, sep, (p[1..] + rest)[i..])
      {
        assert (p[1..] + rest)[i..] == (p + rest)[i + 1..];
      }
      RedactCopiesUnmatched(field, redaction, sep, p[1..], rest);
      assert [p[0]] + (p[1..] + Redact(field, redaction, sep, rest)) == p + Redact(field, redaction, sep, rest);
    } else {
      assert p + rest == rest;
    }
  }

  /** The match stops at the first separator after `field=` (the `.*?`
      is lazy): `field=value<sep>rest`, with no separator starting inside
      `value` and no newline in it, becomes `field=<redaction><sep>` and
      the pass goes on over `rest`. */
  lemma RedactStopsAtFirstSeparator(field: string, redaction: string, sep: string, value: string, rest: string)
    requires '\n' !in value
    requires forall j :: 0 <= j < |value| ==> !(sep <= (value + sep + rest)[j..])
    ensures Redact(field, redaction, sep, field + "=" + value + sep + rest) ==
            field + "=" + redaction + sep + Redact(field, redaction, sep, rest)
  {
    var key := field + "=";
    var msg := key + value + sep + rest;
    var e := |key| + |value|;
    assert msg[e..] == sep + rest;
    assert SepAt(msg, sep, e);
    assert msg[|key|..e] == value;
    forall j | |key| <= j < e
      ensures !SepAt(msg, sep, j)
    {
      assert msg[j..] == (value + sep + rest)[j - |key|..];
    }
    var found := FindSep(msg, sep, |key|);
    assert found == Some(e);
    assert key <= msg;
    assert msg[e + |sep|..] == rest;
  }

  /** A message in which `field=` never occurs comes out of the pass
      unchanged: the values of other fields are left alone. */
  lemma RedactWithoutKey(field: string, redaction: string, sep: string, msg: string)
    requires forall i :: 0 <= i <= |msg| ==> !(field + "=" <= msg[i..])
    ensures Redact(field, redaction, sep, msg) == msg
  {
    forall i | 0 <= i < |msg|
      ensures !MatchHere(field, sep, (msg + [])[i..])
    {
      assert (msg + [])[i..] == msg[i..];
    }
    RedactCopiesUnmatched(field, redaction, sep, msg, []);
    assert msg + [] == msg;
  }

  /** A message in which the (non-empty) separator never occurs comes out
      of the pass unchanged: `field=` with no separator after it stays. */
  lemma RedactWithoutSeparator(field: string, redaction: string, sep: string, msg: string)
    requires sep != []
    requires forall i :: 0 <= i <= |msg| ==> !(sep <= msg[i..])
    ensures Redact(field, redaction, sep, msg) == msg
  {
    forall i | 0 <= i < |msg|
      ensures !MatchHere(field, sep, (msg + [])[i..])
    {
      assert (msg + [])[i..] == msg[i..];
      var m := msg[i..];
      if field + "=" <= m {
        assert FindSep(m, sep, |field| + 1).None?;
      }
    }
    RedactCopiesUnmatched(field, redaction, sep, msg, []);
    assert msg + [] == msg;
  }

  /** When no listed field occurs in the message, no pass changes it. */
  lemma {:induction false} FilterAllWithoutKeys(fields: seq<string>, redaction: string, message: string, sep: string)
    requires forall f, i :: f in fields && 0 <= i <= |message| ==> !(f + "=" <= message[i..])
    ensures FilterAll(fields, redaction, message, sep) == message
  {
    if fields != [] {
      var init := fields[..|fields| - 1];
      FilterAllWithoutKeys(init, redaction, message, sep);
      RedactWithoutKey(fields[|fields| - 1], redaction, sep, message);
    }
  }

  /** A one-character separator that does not occur in `value` starts
      at no position inside it. */
  lemma NoSeparatorInside(value: string, sep: string, rest: string)
    requires |sep| == 1 && sep[0] !in value
    ensures forall j :: 0 <= j < |value| ==> !(sep <= (value + sep + rest)[j..])
  {
    forall j | 0 <= j < |value|
      ensures !(sep <= (value + sep + rest)[j..])
    {
      assert (value + sep + rest)[j..][0] == value[j];
    }
  }

  /** A lone `field=value<sep>` is redacted whole, when the one-character
      separator does not occur in the value. */
  lemma RedactSingleField(field: string, value: string, redaction: string, sep: string)
    requires |sep| == 1 && sep[0] !in value && '\n' !in value
    ensures Redact(field, redaction, sep, field + "=" + value + sep) == field + "=" + redaction + sep
  {
    NoSeparatorInside(value, sep, []);
    RedactStopsAtFirstSeparator(field, redaction, sep, value, []);
    assert field + "=" + value + sep + [] == field + "=" + value + sep;
    assert Redact(field, redaction, sep, []) == [];
  }

  /** No match starts at a character that differs from the field's
      first, so that character is copied and the pass goes on after it. */
  lemma NoMatchBeforeKey(c: char, field: string, redaction: string, sep: string, tail: string)
    requires field != [] && c != field[0]
    ensures Redact(field, redaction, sep, [c] + tail) == [c] + Redact(field, redaction, sep, tail)
  {
    var msg := [c] + tail;
    assert msg[0] != (field + "=")[0];
    assert !MatchHere(field, sep, msg);
    assert msg[1..] == tail;
  }

  /** The pass over `c` followed by a lone `field=value<sep>`, regrouped:
      `c` is copied and the pass goes on over the field. */
  lemma CopyBeforeField(c: char, field: string, value: string, redaction: string, sep: string)
    requires field != [] && c != field[0]
    ensures Redact(field, redaction, sep, [c] + field + "=" + value + sep) ==
            [c] + Redact(field, redaction, sep, field + "=" + value + sep)
  {
    Regroup(c, field, "=", value, sep);
    NoMatchBeforeKey(c, field, redaction, sep, field + "=" + value + sep);
  }

  /** The match is not tied to the start of a key: a key that merely
      ends with the field, such as `xname` for the field `name`, is
      redacted as well. */
  lemma UnanchoredMatch(c: char, field: string, value: string, redaction: string, sep: string)
    requires field != [] && c != field[0]
    requires |sep| == 1 && sep[0] !in value && '\n' !in value
    ensures Redact(field, redaction, sep, [c] + field + "=" + value + sep) == [c] + field + "=" + redaction + sep
  {
    CopyBeforeField(c, field, value, redaction, sep);
    RedactSingleField(field, value, redaction, sep);
    Regroup(c, field, "=", redaction, sep);
  }

  /** Concatenation regrouped after a leading character. */
  lemma Regroup(c: char, a: string, b: string, d: string, e: string)
    ensures [c] + (a + b + d + e) == [c] + a + b + d + e
  {
    calc {
      [c] + (a + b + d + e);
      ([c] + a) + (b + d + e);
      [c] + a + b + d + e;
    }
  }
}
