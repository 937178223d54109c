/**
 Path rewriting and stripping that keeps the percent-encoded form (router.go, `rewriteProxyPath`,
 `rewriteRawPath`, `stripRequestPath`, `stripEscapedPathPrefix` and `escapedPathByte`), over the URL library's
 escaping of paths (percent-encoding as in section 2.1 of RFC 3986).
 */
module RawPath {
  import opened Prelude

  type byte = c: char | c as int < 256 witness 'a'
  type Bytes = seq<byte>

  function HexDigit(c: byte): Option<nat> {
    if '0' <= c <= '9' then Some(c as int - '0' as int)
    else if 'a' <= c <= 'f' then Some(c as int - 'a' as int + 10)
    else if 'A' <= c <= 'F' then Some(c as int - 'A' as int + 10)
    else None
  }

  /** The byte that the encoding holds at the index, and the index after it. */
  function EscapedPathByte(raw: Bytes, index: nat): (r: Option<(byte, nat)>)
    requires index < |raw|
    ensures r.Some? ==> index < r.value.1 <= |raw|
  {
    if raw[index] != '%' then Some((raw[index], index + 1))
    else if index + 2 >= |raw| then None
    else
      match (HexDigit(raw[index + 1]), HexDigit(raw[index + 2]))
      case (Some(high), Some(low)) =>
        HexRange(raw[index + 1]);
        HexRange(raw[index + 2]);
        Some(((high * 16 + low) as char, index + 3))
      case _ => None
  }

  lemma HexRange(c: byte)
    ensures HexDigit(c).Some? ==> HexDigit(c).value < 16
  {
  }

  const LOWER_HEX: Bytes := ['0', '1', '2', '3', '4', '5', '6', '7', '8', '9', 'a', 'b', 'c', 'd', 'e', 'f']
  const UPPER_HEX: Bytes := ['0', '1', '2', '3', '4', '5', '6', '7', '8', '9', 'A', 'B', 'C', 'D', 'E', 'F']

  /** The sixteen digits, in either case, and no other characters. */
  lemma HexDigitMeans(c: byte, d: nat)
    ensures HexDigit(c) == Some(d) <==> d < 16 && (c == LOWER_HEX[d] || c == UPPER_HEX[d])
  {
  }

  // ----- The URL library: decoding and escaping

  function Decode(raw: Bytes): Option<Bytes>
    decreases |raw|
  {
    if |raw| == 0 then Some([])
    else
      match EscapedPathByte(raw, 0)
      case None => None
      case Some((value, next)) => Joined([value], Decode(raw[next..]))
  }

  function Joined(front: Bytes, rest: Option<Bytes>): Option<Bytes> {
    if rest.Some? then Some(front + rest.value) else None
  }

  lemma JoinedTwice(a: Bytes, b: Bytes, rest: Option<Bytes>)
    ensures Joined(a, Joined(b, rest)) == Joined(a + b, rest)
    ensures Joined([], rest) == rest
  {
    if rest.Some? {
      assert a + (b + rest.value) == (a + b) + rest.value;
      assert [] + rest.value == rest.value;
    }
  }

  lemma DecodeStep(raw: Bytes, value: byte, next: nat)
    requires |raw| > 0 && EscapedPathByte(raw, 0) == Some((value, next))
    ensures Decode(raw) == Joined([value], Decode(raw[next..]))
  {
  }

  predicate Unreserved(c: byte) {
    || 'a' <= c <= 'z' || 'A' <= c <= 'Z' || '0' <= c <= '9'
    || c in {'-', '_', '.', '~', '$', '&', '+', ',', '/', ':', ';', '=', '@'}
  }

  /** What an encoded path may hold; some of it the library would not produce itself. */
  predicate ValidEncoded(raw: Bytes) {
    forall k | 0 <= k < |raw| :: Unreserved(raw[k]) || raw[k] in {'!', '\'', '(', ')', '*', '[', ']', '%'}
  }

  function HexChar(d: nat): (c: byte)
    requires d < 16
    ensures c == UPPER_HEX[d] && HexDigit(c) == Some(d) && Unreserved(c) && c != '%'
  {
    if d < 10 then (d + '0' as int) as char else (d - 10 + 'A' as int) as char
  }

  function Escape(path: Bytes): Bytes {
    if |path| == 0 then []
    else if Unreserved(path[0]) then [path[0]] + Escape(path[1..])
    else ['%', HexChar(path[0] as int / 16), HexChar(path[0] as int % 16)] + Escape(path[1..])
  }

  function EscapedPath(path: Bytes, raw: Bytes): Bytes {
    if raw != [] && ValidEncoded(raw) && Decode(raw) == Some(path) then raw
    else if path == ['*'] then ['*']
    else Escape(path)
  }

  predicate ValidRawPath(path: Bytes, raw: Bytes) {
    raw != [] && EscapedPath(path, raw) == raw && Decode(raw) == Some(path)
  }

  lemma {:induction false} EscapeIsEncoded(path: Bytes)
    ensures ValidEncoded(Escape(path))
  {
    if |path| > 0 {
      EscapeIsEncoded(path[1..]);
    }
  }

  lemma HexByte(high: byte, low: byte, rest: Bytes, c: byte)
    requires HexDigit(high).Some? && HexDigit(low).Some?
    requires c as int == HexDigit(high).value * 16 + HexDigit(low).value
    ensures EscapedPathByte(['%', high, low] + rest, 0) == Some((c, 3)) && (['%', high, low] + rest)[3..] == rest
  {
  }

  lemma DecodeEscapedByte(c: byte, rest: Bytes)
    requires !Unreserved(c)
    ensures Decode(['%', HexChar(c as int / 16), HexChar(c as int % 16)] + rest) == Joined([c], Decode(rest))
  {
    var high, low := HexChar(c as int / 16), HexChar(c as int % 16);
    HexByte(high, low, rest, c);
    DecodeStep(['%', high, low] + rest, c, 3);
  }

  lemma DecodePlainByte(c: byte, rest: Bytes)
    requires Unreserved(c)
    ensures Decode([c] + rest) == Joined([c], Decode(rest))
  {
    assert ([c] + rest)[1..] == rest;
    DecodeStep([c] + rest, c, 1);
  }

  /** Decoding undoes escaping. */
  lemma {:induction false} DecodeEscape(path: Bytes)
    ensures Decode(Escape(path)) == Some(path)
  {
    if |path| > 0 {
      DecodeEscape(path[1..]);
      assert path == [path[0]] + path[1..];
      if Unreserved(path[0]) {
        DecodePlainByte(path[0], Escape(path[1..]));
      } else {
        DecodeEscapedByte(path[0], Escape(path[1..]));
      }
    }
  }

  /** A raw path is kept exactly when it is non-empty, uses valid escaping and decodes to the path. */
  lemma ValidRawPathMeans(path: Bytes, raw: Bytes)
    ensures ValidRawPath(path, raw) <==> raw != [] && ValidEncoded(raw) && Decode(raw) == Some(path)
  {
    EscapeIsEncoded(path);
  }

  // ----- Stripping an encoded prefix

  /** The rest of the encoding after the bytes that decode to the prefix. */
  function Stripped(raw: Bytes, prefix: Bytes): Option<Bytes>
    decreases |raw|
  {
    if |prefix| == 0 then Some(raw)
    else if |raw| == 0 then None
    else
      match EscapedPathByte(raw, 0)
      case Some((value, next)) => if value == prefix[0] then Stripped(raw[next..], prefix[1..]) else None
      case None => None
  }

  lemma ByteAt(raw: Bytes, index: nat)
    requires index < |raw|
    ensures var here, there := EscapedPathByte(raw, index), EscapedPathByte(raw[index..], 0);
            && here.Some? == there.Some?
            && (here.Some? ==> here.value.0 == there.value.0 && here.value.1 == index + there.value.1
                               && raw[index..][there.value.1..] == raw[here.value.1..])
  {
  }

  method StripEscapedPathPrefix(raw: Bytes, prefix: Bytes) returns (rest: Option<Bytes>)
    ensures rest == Stripped(raw, prefix)
  {
    if |prefix| == 0 { return Some(raw); }
    var decoded, index := 0, 0;
    assert raw[0..] == raw && prefix[0..] == prefix;
    while index < |raw|
      invariant index <= |raw| && decoded < |prefix|
      invariant Stripped(raw, prefix) == Stripped(raw[index..], prefix[decoded..])
      decreases |raw| - index
    {
      ByteAt(raw, index);
      var b := EscapedPathByte(raw, index);
      if b.None? || b.value.0 != prefix[decoded] { return None; }
      assert prefix[decoded..][1..] == prefix[decoded + 1..];
      decoded := decoded + 1;
      index := b.value.1;
      if decoded == |prefix| { return Some(raw[index..]); }
    }
    return None;
  }

  lemma FirstByteConcat(a: Bytes, b: Bytes)
    requires |a| > 0 && EscapedPathByte(a, 0).Some?
    ensures EscapedPathByte(a + b, 0) == EscapedPathByte(a, 0)
    ensures var next := EscapedPathByte(a, 0).value.1; (a + b)[next..] == a[next..] + b
  {
  }

  /** Decoding an encoding after another one that is complete. */
  lemma {:induction false} DecodeConcat(a: Bytes, b: Bytes)
    requires Decode(a).Some?
    ensures Decode(a + b) == Joined(Decode(a).value, Decode(b))
    decreases |a|
  {
    if |a| == 0 {
      assert a + b == b;
      JoinedTwice([], [], Decode(b));
    } else {
      var (value, next) := EscapedPathByte(a, 0).value;
      DecodeConcat(a[next..], b);
      FirstByteConcat(a, b);
      DecodeStep(a, value, next);
      DecodeStep(a + b, value, next);
      JoinedTwice([value], Decode(a[next..]).value, Decode(b));
    }
  }

  /** Stripping succeeds exactly when the encoding splits into one of the prefix and the rest, and returns that rest. */
  lemma {:induction false} StrippedSplits(raw: Bytes, prefix: Bytes)
    ensures match Stripped(raw, prefix)
            case Some(rest) => |rest| <= |raw| && rest == raw[|raw| - |rest|..] && Decode(raw[..|raw| - |rest|]) == Some(prefix)
            case None => NoSplit(raw, prefix)
    decreases |raw|
  {
    if |prefix| == 0 {
      assert raw[..0] == [];
    } else if |raw| > 0 && EscapedPathByte(raw, 0).Some? {
      var (value, next) := EscapedPathByte(raw, 0).value;
      StrippedSplits(raw[next..], prefix[1..]);
      if Stripped(raw, prefix).Some? {
        SplitGrows(raw, prefix, value, next, |raw| - |Stripped(raw, prefix).value|);
      } else {
        NoSplitGrows(raw, prefix, value, next);
      }
    } else if |raw| > 0 {
      forall k | 0 < k <= |raw| ensures Decode(raw[..k]) != Some(prefix) {
        ShortByte(raw, k);
      }
    }
  }

  ghost predicate NoSplit(raw: Bytes, prefix: Bytes) {
    forall k | 0 <= k <= |raw| :: Decode(raw[..k]) != Some(prefix)
  }

  lemma SplitGrows(raw: Bytes, prefix: Bytes, value: byte, next: nat, k: nat)
    requires |prefix| > 0 && value == prefix[0] && next <= k <= |raw|
    requires |raw| > 0 && EscapedPathByte(raw, 0) == Some((value, next))
    requires Decode(raw[next..][..k - next]) == Some(prefix[1..])
    ensures Decode(raw[..k]) == Some(prefix)
  {
    LongByte(raw, k, value, next);
    assert prefix == [prefix[0]] + prefix[1..];
  }

  lemma NoSplitGrows(raw: Bytes, prefix: Bytes, value: byte, next: nat)
    requires |prefix| > 0 && |raw| > 0 && EscapedPathByte(raw, 0) == Some((value, next))
    requires value == prefix[0] ==> NoSplit(raw[next..], prefix[1..])
    ensures NoSplit(raw, prefix)
  {
    forall k | 0 <= k <= |raw| ensures Decode(raw[..k]) != Some(prefix) {
      if 0 < k < next {
        ShortByte(raw, k);
      } else if next <= k {
        LongByte(raw, k, value, next);
        assert prefix == [prefix[0]] + prefix[1..];
        assert raw[next..][..k - next] <= raw[next..];
      }
    }
  }

  lemma LongByte(raw: Bytes, k: nat, value: byte, next: nat)
    requires 0 < k <= |raw| && EscapedPathByte(raw, 0) == Some((value, next)) && next <= k
    ensures Decode(raw[..k]) == Joined([value], Decode(raw[next..][..k - next]))
  {
    assert raw[..k][next..] == raw[next..][..k - next];
    DecodeStep(raw[..k], value, next);
  }

  /** A cut inside the first encoded byte leaves nothing that decodes. */
  lemma ShortByte(raw: Bytes, k: nat)
    requires 0 < k <= |raw|
    requires EscapedPathByte(raw, 0).Some? ==> k < EscapedPathByte(raw, 0).value.1
    ensures Decode(raw[..k]) == None
  {
    assert raw[0] == '%';
    assert raw[..k][0] == '%';
    assert EscapedPathByte(raw[..k], 0) == None;
  }

  lemma {:induction false} StripDecodesRest(raw: Bytes, prefix: Bytes, rest: Bytes)
    requires Decode(raw) == Some(prefix + rest)
    ensures Stripped(raw, prefix).Some? && Decode(Stripped(raw, prefix).value) == Some(rest)
    decreases |raw|
  {
    if |prefix| == 0 {
      assert prefix + rest == rest;
    } else {
      var (value, next) := EscapedPathByte(raw, 0).value;
      assert (prefix + rest)[0] == prefix[0];
      assert Decode(raw[next..]).value == (prefix + rest)[1..] == prefix[1..] + rest;
      StripDecodesRest(raw[next..], prefix[1..], rest);
    }
  }

  /** If the encoding is one of the path, stripping any prefix of the path succeeds, and the rest encodes the rest. */
  lemma StripDecodes(raw: Bytes, path: Bytes, prefix: Bytes)
    requires Decode(raw) == Some(path) && prefix <= path
    ensures Stripped(raw, prefix).Some? && Decode(Stripped(raw, prefix).value) == Some(path[|prefix|..])
  {
    assert path == prefix + path[|prefix|..];
    StripDecodesRest(raw, prefix, path[|prefix|..]);
  }

  lemma {:induction false} StrippedIsSuffix(raw: Bytes, prefix: Bytes)
    requires Stripped(raw, prefix).Some? && ValidEncoded(raw)
    ensures ValidEncoded(Stripped(raw, prefix).value)
  {
    StrippedSplits(raw, prefix);
  }

  // ----- Rewriting and stripping

  datatype Pattern = Pattern(path: Bytes, rawPath: Bytes, wildcard: bool) {
    /** What the pattern compiler guarantees: the raw form is the escaped path, and an exact path is not empty. */
    ghost predicate Valid() {
      rawPath == Escape(path) && (!wildcard ==> path != [])
    }

    predicate Matches(p: Bytes) {
      if wildcard then path == [] || p == path || path + ['/'] <= p else p == path
    }
  }

  class Url {
    var path: Bytes
    var rawPath: Bytes

    constructor (path: Bytes, rawPath: Bytes)
      ensures this.path == path && this.rawPath == rawPath
    {
      this.path, this.rawPath := path, rawPath;
    }
  }

  /** The part of a matched path after the pattern's prefix. */
  function Suffix(source: Pattern, path: Bytes): Bytes {
    if source.wildcard && source.path <= path then path[|source.path|..]
    else if source.wildcard then path
    else []
  }

  function RewrittenPath(source: Pattern, destination: Pattern, path: Bytes): Bytes {
    if !destination.wildcard then destination.path
    else
      var joined := destination.path + Suffix(source, path);
      if joined == [] then ['/'] else joined
  }

  method RewriteProxyPath(out: Url, incoming: Url, source: Pattern, destination: Pattern)
    requires out != incoming && source.Valid() && destination.Valid() && source.Matches(incoming.path)
    modifies out
    ensures out.path == RewrittenPath(source, destination, incoming.path)
    ensures out.rawPath == if ValidRawPath(incoming.path, incoming.rawPath)
                           then Candidate(source, destination, incoming.rawPath) else []
    ensures out.rawPath != [] ==> ValidRawPath(out.path, out.rawPath)
    ensures out.rawPath == [] <==>
            || !ValidRawPath(incoming.path, incoming.rawPath)
            || (destination.wildcard && destination.path == [] && Suffix(source, incoming.path) == [])
  {
    if ValidRawPath(incoming.path, incoming.rawPath) {
      CandidateValid(source, destination, incoming.path, incoming.rawPath);
    }
    var suffix := [];
    if source.wildcard {
      suffix := if source.path <= incoming.path then incoming.path[|source.path|..] else incoming.path;
    }
    var path := destination.path;
    if destination.wildcard {
      if suffix != [] { path := path + suffix; }
      if path == [] { path := ['/']; }
    }
    out.path := path;
    out.rawPath := RewriteRawPath(incoming, source, destination, path);
  }

  /** The destination's escaped prefix and, for a wildcard, the raw suffix. */
  function Candidate(source: Pattern, destination: Pattern, raw: Bytes): Bytes {
    var rawSuffix :=
      if source.wildcard && Stripped(raw, source.path).Some? then Stripped(raw, source.path).value else [];
    destination.rawPath + if destination.wildcard then rawSuffix else []
  }

  /** Keeps the encoding whenever it had a valid one to keep: it is dropped only if there is nothing to write. */
  method RewriteRawPath(incoming: Url, source: Pattern, destination: Pattern, path: Bytes) returns (raw: Bytes)
    requires source.Valid() && destination.Valid() && source.Matches(incoming.path)
    requires path == RewrittenPath(source, destination, incoming.path)
    ensures raw == if ValidRawPath(incoming.path, incoming.rawPath)
                   then Candidate(source, destination, incoming.rawPath) else []
    ensures raw != [] ==> ValidRawPath(path, raw)
  {
    if incoming.rawPath == [] || !ValidRawPath(incoming.path, incoming.rawPath) { return []; }
    var rawSuffix := [];
    if source.wildcard {
      var rest := StripEscapedPathPrefix(incoming.rawPath, source.path);
      StripDecodes(incoming.rawPath, incoming.path, source.path);
      if rest.None? { return []; }
      rawSuffix := rest.value;
    }
    raw := destination.rawPath;
    if destination.wildcard { raw := raw + rawSuffix; }
    assert destination.rawPath + [] == destination.rawPath;
    CandidateValid(source, destination, incoming.path, incoming.rawPath);
    if !ValidRawPath(path, raw) { raw := []; }
  }

  /** A non-empty candidate is always a valid encoding of the rewritten path. */
  lemma CandidateValid(source: Pattern, destination: Pattern, path: Bytes, raw: Bytes)
    requires source.Valid() && destination.Valid() && source.Matches(path) && ValidRawPath(path, raw)
    ensures var candidate := Candidate(source, destination, raw);
            candidate != [] ==> ValidRawPath(RewrittenPath(source, destination, path), candidate)
    ensures Candidate(source, destination, raw) == [] <==>
            destination.wildcard && destination.path == [] && Suffix(source, path) == []
  {
    ValidRawPathMeans(path, raw);
    EscapeIsEncoded(destination.path);
    DecodeEscape(destination.path);
    var rawSuffix: Bytes := [];
    if source.wildcard {
      StripDecodes(raw, path, source.path);
      StrippedIsSuffix(raw, source.path);
      rawSuffix := Stripped(raw, source.path).value;
    }
    assert Decode(rawSuffix) == Some(Suffix(source, path)) && ValidEncoded(rawSuffix);
    DecodeConcat(destination.rawPath, rawSuffix);
    var candidate := Candidate(source, destination, raw);
    ValidRawPathMeans(RewrittenPath(source, destination, path), candidate);
    DecodeEmpty(rawSuffix);
    DecodeEmpty(destination.rawPath);
    assert destination.rawPath + [] == destination.rawPath;
  }

  /** An encoding of the prefix followed by anything is stripped down to that. */
  lemma {:induction false} StrippedExactly(front: Bytes, rest: Bytes, prefix: Bytes)
    requires Decode(front) == Some(prefix)
    ensures Stripped(front + rest, prefix) == Some(rest)
    decreases |front|
  {
    if |front| == 0 {
      assert front + rest == rest;
    } else {
      var (value, next) := EscapedPathByte(front, 0).value;
      DecodeStep(front, value, next);
      FirstByteConcat(front, rest);
      assert prefix == [value] + Decode(front[next..]).value;
      assert prefix[1..] == Decode(front[next..]).value;
      StrippedExactly(front[next..], rest, prefix[1..]);
    }
  }

  /**
   A rewrite puts the destination's prefix in the place of the source's and keeps what follows it, in both forms; a
   destination without a wildcard is the whole new path.
   */
  lemma RewriteReplacesThePrefix(source: Pattern, destination: Pattern, rest: Bytes, rawFront: Bytes, rawRest: Bytes)
    requires source.wildcard && destination.Valid() && Decode(rawFront) == Some(source.path)
    ensures RewrittenPath(source, destination, source.path + rest)
            == if !destination.wildcard then destination.path
               else if destination.path == [] && rest == [] then ['/'] else destination.path + rest
    ensures Candidate(source, destination, rawFront + rawRest)
            == Escape(destination.path) + if destination.wildcard then rawRest else []
  {
    StrippedExactly(rawFront, rawRest, source.path);
    assert (source.path + rest)[|source.path|..] == rest;
  }

  /** An exact source leaves nothing to follow. */
  lemma RewriteFromExact(source: Pattern, destination: Pattern, path: Bytes, raw: Bytes)
    requires !source.wildcard && destination.Valid()
    ensures RewrittenPath(source, destination, path)
            == if destination.wildcard && destination.path == [] then ['/'] else destination.path
    ensures Candidate(source, destination, raw) == Escape(destination.path)
  {
  }

  /** Stripping takes a prefix away, once, and leaves a root behind if nothing follows; without the prefix nothing is taken. */
  lemma StripTakesThePrefix(prefix: Bytes, rest: Bytes)
    ensures StripPathPrefix(prefix + rest, prefix) == if rest == [] && prefix != [] then ['/'] else rest
    ensures !(prefix <= rest) ==> StripPathPrefix(rest, prefix) == if rest == [] then ['/'] else rest
  {
    assert (prefix + rest)[|prefix|..] == rest;
  }

  lemma DecodeEmpty(raw: Bytes)
    ensures Decode(raw) == Some([]) <==> raw == []
  {
  }

  function StripPathPrefix(path: Bytes, prefix: Bytes): Bytes {
    if prefix == [] then path
    else
      var rest := if prefix <= path then path[|prefix|..] else path;
      if rest == [] then ['/'] else rest
  }

  /** The rest of a valid encoding is a valid encoding of the rest, unless nothing is left. */
  lemma StripKeepsValid(raw: Bytes, path: Bytes, prefix: Bytes)
    requires Decode(raw) == Some(path) && prefix <= path
    ensures Stripped(raw, prefix).Some?
    ensures var rest := Stripped(raw, prefix).value;
            && (rest == [] <==> prefix == path)
            && (ValidRawPath(path, raw) && rest != [] ==> ValidRawPath(path[|prefix|..], rest))
  {
    StripDecodes(raw, path, prefix);
    var rest := Stripped(raw, prefix).value;
    DecodeEmpty(rest);
    ValidRawPathMeans(path, raw);
    ValidRawPathMeans(path[|prefix|..], rest);
    if ValidEncoded(raw) {
      StrippedIsSuffix(raw, prefix);
    }
  }

  /** Removes the matched prefix from both forms of the request path. */
  method StripRequestPath(url: Url, prefix: Bytes)
    modifies url
    ensures url.path == StripPathPrefix(old(url.path), prefix)
    ensures url.rawPath == if old(url.rawPath) == [] || prefix == [] then old(url.rawPath)
                           else if Stripped(old(url.rawPath), prefix).None? then []
                           else Stripped(old(url.rawPath), prefix).value
    ensures Decode(old(url.rawPath)) == Some(old(url.path)) && prefix <= old(url.path) && old(url.rawPath) != [] ==>
              url.rawPath == [] || Decode(url.rawPath) == Some(url.path)
    ensures ValidRawPath(old(url.path), old(url.rawPath)) && prefix <= old(url.path) ==>
              && (url.rawPath == [] <==> prefix != [] && prefix == old(url.path))
              && (url.rawPath != [] ==> ValidRawPath(url.path, url.rawPath))
  {
    var rawPath := url.rawPath;
    if Decode(rawPath) == Some(url.path) && prefix <= url.path {
      StripDecodes(rawPath, url.path, prefix);
      DecodeEmpty(Stripped(rawPath, prefix).value);
      StripKeepsValid(rawPath, url.path, prefix);
    }
    url.path := StripPathPrefix(url.path, prefix);
    if rawPath == [] || prefix == [] { return; }
    var stripped := StripEscapedPathPrefix(rawPath, prefix);
    if stripped.None? {
      url.rawPath := [];
      return;
    }
    url.rawPath := stripped.value;
  }
}
