/**
 * The content normaliser `formatContent`: text that the JSON parser accepts
 * is re-serialised by the JSON printer with 2-space indentation; any other
 * text has every "\r\n" replaced by "\n". The parser and the printer are
 * given as functions, so only the dispatch is specified here.
 */
module Normalize {
  import opened Wrappers

  /** `s.replace(/\r\n/g, '\n')`: a left-to-right scan over non-overlapping matches. */
  function CrlfToLf(s: string): string
    decreases |s|
  {
    if |s| >= 2 && s[0] == '\r' && s[1] == '\n' then "\n" + CrlfToLf(s[2..])
    else if |s| == 0 then ""
    else [s[0]] + CrlfToLf(s[1..])
  }

  /** The character at `i` is a carriage return immediately followed by a line feed. */
  predicate CrBeforeLf(s: string, i: nat)
    requires i < |s|
  {
    s[i] == '\r' && i + 1 < |s| && s[i + 1] == '\n'
  }

  /** Some carriage return in `s` is immediately followed by a line feed. */
  predicate HasCrlf(s: string)
  {
    exists i :: 0 <= i < |s| && CrBeforeLf(s, i)
  }

  /**
   * Reference definition: the characters of `s` from position `i` on, in
   * order, leaving out each carriage return that is immediately followed by
   * a line feed.
   */
  function KeptFrom(s: string, i: nat): string
    requires i <= |s|
    decreases |s| - i
  {
    if i == |s| then ""
    else (if CrBeforeLf(s, i) then "" else [s[i]]) + KeptFrom(s, i + 1)
  }

  /** The scan from position `i` on agrees with the reference definition. */
  lemma {:induction false} CrlfToLfFrom(s: string, i: nat)
    requires i <= |s|
    ensures CrlfToLf(s[i..]) == KeptFrom(s, i)
    decreases |s| - i
  {
    if i < |s| {
      var t := s[i..];
      if CrBeforeLf(s, i) {
        assert t[2..] == s[i + 2..];
        CrlfToLfFrom(s, i + 2);
        assert !CrBeforeLf(s, i + 1);
      } else {
        assert t[1..] == s[i + 1..];
        CrlfToLfFrom(s, i + 1);
      }
    }
  }

  /**
   * The CRLF rewrite deletes exactly the carriage returns that are
   * immediately followed by a line feed and keeps every other character,
   * in order.
   */
  lemma CrlfToLfDeletesCrBeforeLf(s: string)
    ensures CrlfToLf(s) == KeptFrom(s, 0)
  {
    CrlfToLfFrom(s, 0);
    assert s[0..] == s;
  }

  /** The rewrite never lengthens, and shortens exactly when there is a CRLF. */
  lemma {:induction false} CrlfToLfLength(s: string)
    ensures |CrlfToLf(s)| <= |s|
    ensures HasCrlf(s) <==> |CrlfToLf(s)| < |s|
    decreases |s|
  {
    if |s| >= 2 && s[0] == '\r' && s[1] == '\n' {
      CrlfToLfLength(s[2..]);
      assert CrBeforeLf(s, 0);
    } else if |s| > 0 {
      var t := s[1..];
      CrlfToLfLength(t);
      if HasCrlf(s) {
        var i :| 0 <= i < |s| && CrBeforeLf(s, i);
        assert i > 0;
        assert CrBeforeLf(t, i - 1);
      }
      if HasCrlf(t) {
        var i :| 0 <= i < |t| && CrBeforeLf(t, i);
        assert CrBeforeLf(s, i + 1);
      }
    }
  }

  /** A string without carriage returns has no CRLF. */
  lemma NoCrWithoutCrlf(s: string)
    requires '\r' !in s
    ensures !HasCrlf(s)
  {
  }

  /** A string is returned unchanged exactly when it contains no CRLF. */
  lemma CrlfToLfUnchanged(s: string)
    ensures CrlfToLf(s) == s <==> !HasCrlf(s)
  {
    CrlfToLfLength(s);
    if !HasCrlf(s) {
      CrlfToLfDeletesCrBeforeLf(s);
      KeptAllWithoutCrlf(s, 0);
      assert s[0..] == s;
    }
  }

  /** Without a CRLF the reference definition keeps every character. */
  lemma {:induction false} KeptAllWithoutCrlf(s: string, i: nat)
    requires i <= |s| && !HasCrlf(s)
    ensures KeptFrom(s, i) == s[i..]
    decreases |s| - i
  {
    if i < |s| {
      KeptAllWithoutCrlf(s, i + 1);
      assert !CrBeforeLf(s, i);
      assert s[i..] == [s[i]] + s[i + 1..];
    }
  }

  /**
   * The rewrite is not idempotent: "\r\r\n" becomes "\r\n", which still
   * holds a CRLF and would shrink once more.
   */
  lemma CrlfToLfNotIdempotent()
    ensures CrlfToLf("\r\r\n") == "\r\n"
    ensures CrlfToLf(CrlfToLf("\r\r\n")) == "\n"
  {
    assert "\r\r\n"[1..] == "\r\n";
    assert "\r\n"[2..] == "";
  }

  /**
   * `formatContent(content)`: the printed JSON value when `parse` accepts
   * the content, otherwise the content with every CR before an LF deleted.
   */
  function FormatContent<J>(parse: string -> Option<J>, stringify: J -> string, content: string): (r: string)
    ensures parse(content).Some? ==> r == stringify(parse(content).value)
    ensures parse(content).None? ==> r == KeptFrom(content, 0) && |r| <= |content|
    ensures parse(content).None? ==> (r == content <==> !HasCrlf(content))
  {
    match parse(content)
    case Some(v) => stringify(v)
    case None =>
      CrlfToLfDeletesCrBeforeLf(content);
      CrlfToLfUnchanged(content);
      CrlfToLfLength(content);
      CrlfToLf(content)
  }

  /** Non-JSON text without carriage returns is shown and copied exactly as read. */
  lemma FormatContentWithoutCr<J>(parse: string -> Option<J>, stringify: J -> string, content: string)
    requires parse(content).None? && '\r' !in content
    ensures FormatContent(parse, stringify, content) == content
  {
    NoCrWithoutCrlf(content);
  }

  /**
   * Any content the parser accepts is replaced by the printing of its
   * value, so two texts with the same parsed value (such as a bare number
   * written with and without surrounding spaces) normalise to the same text.
   */
  lemma FormatContentByParsedValue<J>(parse: string -> Option<J>, stringify: J -> string, a: string, b: string)
    requires parse(a).Some? && parse(a) == parse(b)
    ensures FormatContent(parse, stringify, a) == FormatContent(parse, stringify, b)
  {
  }

  /**
   * With a printer whose output the parser reads back as the same value,
   * normalised JSON parses to the value of the original content, and
   * normalising it again changes nothing (unlike the CRLF branch).
   */
  lemma FormatContentJsonStable<J>(parse: string -> Option<J>, stringify: J -> string, content: string)
    requires forall v :: parse(stringify(v)) == Some(v)
    requires parse(content).Some?
    ensures parse(FormatContent(parse, stringify, content)) == parse(content)
    ensures FormatContent(parse, stringify, FormatContent(parse, stringify, content)) == FormatContent(parse, stringify, content)
  {
    match parse(content) {
      case Some(v) => assert parse(stringify(v)) == Some(v);
    }
  }
}
