/**
  The origin check the management server's CORS layer applies
  (backend/src/main.rs, lines 232-241). The configured value is either the
  wildcard "*" or a comma-separated list of origins.
 */
module Cors {
  import opened Seqs

  const Wildcard: string := "*"
  const Separator: char := ','

  /** `s.split(sep)`: the pieces between separators; there is always at least one. */
  function Split(s: string, sep: char): (pieces: seq<string>)
    ensures |pieces| >= 1
    ensures forall i :: 0 <= i < |pieces| ==> sep !in pieces[i]
  {
    if |s| == 0 then [""]
    else
      var rest := Split(s[1..], sep);
      if s[0] == sep then [""] + rest
      else [[s[0]] + rest[0]] + rest[1..]
  }

  /** The pieces with `sep` between consecutive ones; the inverse of Split. */
  function Join(pieces: seq<string>, sep: char): string
  {
    if |pieces| == 0 then ""
    else if |pieces| == 1 then pieces[0]
    else pieces[0] + [sep] + Join(pieces[1..], sep)
  }

  /** `s.split_terminator(sep)`: as Split, but a trailing empty piece is skipped. */
  function SplitTerminator(s: string, sep: char): seq<string>
  {
    var pieces := Split(s, sep);
    if pieces[|pieces| - 1] == "" then pieces[..|pieces| - 1] else pieces
  }

  /** The non-empty entries of the configured origin list. */
  function Entries(allowedOrigins: string): seq<string>
  {
    Filter(SplitTerminator(allowedOrigins, Separator), e => e != "")
  }

  /** The `allowed_origin_fn` closure. */
  predicate OriginAllowed(allowedOrigins: string, origin: string)
  {
    allowedOrigins == Wildcard || origin in Entries(allowedOrigins)
  }

  lemma {:induction false} JoinSplit(s: string, sep: char)
    ensures Join(Split(s, sep), sep) == s
  {
    if |s| > 0 {
      var rest := Split(s[1..], sep);
      JoinSplit(s[1..], sep);
      if s[0] == sep {
        assert ([""] + rest)[1..] == rest;
      } else {
        var pieces := [[s[0]] + rest[0]] + rest[1..];
        assert pieces[1..] == rest[1..];
        if |rest| > 1 {
          assert Join(rest, sep) == rest[0] + [sep] + Join(rest[1..], sep);
        }
        assert s == [s[0]] + s[1..];
      }
    }
  }

  lemma {:induction false} SplitWithoutSeparator(p: string, sep: char)
    requires sep !in p
    ensures Split(p, sep) == [p]
  {
    if |p| > 0 {
      SplitWithoutSeparator(p[1..], sep);
      assert p == [p[0]] + p[1..];
    }
  }

  lemma {:induction false} SplitAfterPiece(p: string, t: string, sep: char)
    requires sep !in p
    ensures Split(p + [sep] + t, sep) == [p] + Split(t, sep)
  {
    var s := p + [sep] + t;
    if |p| == 0 {
      assert s[1..] == t;
    } else {
      assert s[1..] == p[1..] + [sep] + t;
      SplitAfterPiece(p[1..], t, sep);
      assert p == [p[0]] + p[1..];
    }
  }

  /** Splitting a join of separator-free pieces gives the pieces back. */
  lemma {:induction false} SplitJoin(pieces: seq<string>, sep: char)
    requires |pieces| >= 1
    requires forall i :: 0 <= i < |pieces| ==> sep !in pieces[i]
    ensures Split(Join(pieces, sep), sep) == pieces
  {
    if |pieces| == 1 {
      SplitWithoutSeparator(pieces[0], sep);
    } else {
      SplitJoin(pieces[1..], sep);
      SplitAfterPiece(pieces[0], Join(pieces[1..], sep), sep);
    }
  }

  /** The wildcard accepts every origin. */
  lemma WildcardAllowsAll(origin: string)
    ensures OriginAllowed(Wildcard, origin)
  {
  }

  /**
    Otherwise an origin is accepted exactly when it is non-empty and is one of
    the comma-separated pieces of the configured value.
   */
  lemma OriginAllowedIff(allowedOrigins: string, origin: string)
    requires allowedOrigins != Wildcard
    ensures OriginAllowed(allowedOrigins, origin)
      <==> origin != "" && origin in Split(allowedOrigins, Separator)
  {
    var pieces := Split(allowedOrigins, Separator);
    if pieces[|pieces| - 1] == "" {
      assert pieces == pieces[..|pieces| - 1] + [""];
    }
  }

  /**
    Configured as a list of comma-free entries joined by commas, the check
    accepts exactly the non-empty entries; an origin holding a comma never.
   */
  lemma OriginAllowedForEntries(entries: seq<string>, origin: string)
    requires |entries| >= 1
    requires forall i :: 0 <= i < |entries| ==> Separator !in entries[i]
    requires Join(entries, Separator) != Wildcard
    ensures OriginAllowed(Join(entries, Separator), origin) <==> origin != "" && origin in entries
  {
    SplitJoin(entries, Separator);
    OriginAllowedIff(Join(entries, Separator), origin);
  }
}
