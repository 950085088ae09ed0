/** The command line the Windows prover server builds (server-win.c), read back by Microsoft's argv rules. */
module WinQuote {
  import opened RadixText
  import opened Framing

  /**
   Microsoft's rules for arguments, as a machine over characters: the arguments
   done, the one being read, whether inside quotes, and the backslashes seen last.
   */
  datatype Reader = Reader(done: seq<string>, cur: Option<string>, quoted: bool, slashes: nat)

  function Slashes(n: nat): (s: string)
    ensures |s| == n
  {
    seq(n, _ => '\\')
  }

  function Begun(cur: Option<string>): (s: string)
  {
    if cur.None? then "" else cur.value
  }

  /**
   2n backslashes before a quote are n backslashes, and the quote opens or closes;
   2n + 1 are n backslashes and a literal quote; elsewhere backslashes are literal.
   Blanks outside quotes end an argument.
   */
  function Step(r: Reader, c: char): (t: Reader)
  {
    var text := Begun(r.cur);
    if c == '\\' then r.(cur := Some(text), slashes := r.slashes + 1)
    else if c == '"' then
      if r.slashes % 2 == 0
      then r.(cur := Some(text + Slashes(r.slashes / 2)), quoted := !r.quoted, slashes := 0)
      else r.(cur := Some(text + Slashes(r.slashes / 2) + "\""), slashes := 0)
    else if (c == ' ' || c == '\t') && !r.quoted then
      if r.cur.None? then r else Reader(r.done + [text + Slashes(r.slashes)], None, false, 0)
    else r.(cur := Some(text + Slashes(r.slashes) + [c]), slashes := 0)
  }

  function Feed(r: Reader, s: string): (t: Reader)
  {
    if s == "" then r else Step(Feed(r, s[..|s| - 1]), s[|s| - 1])
  }

  const FRESH := Reader([], None, false, 0)

  /** The arguments in a string. */
  function ReadArgs(s: string): (args: seq<string>)
  {
    var r := Feed(FRESH, s);
    if r.cur.None? then r.done else r.done + [r.cur.value + Slashes(r.slashes)]
  }

  lemma FeedOne(r: Reader, s: string, c: char)
    ensures Feed(r, s + [c]) == Step(Feed(r, s), c)
  {
    assert (s + [c])[..|s|] == s;
  }

  /** Backslashes in a row. */
  lemma {:induction false} FeedSlashes(r: Reader, s: string, n: nat)
    requires Feed(r, s).cur.Some?
    ensures var t := Feed(r, s); Feed(r, s + Slashes(n)) == t.(slashes := t.slashes + n)
    decreases n
  {
    if n == 0 {
      assert s + Slashes(0) == s;
    } else {
      FeedSlashes(r, s, n - 1);
      assert s + Slashes(n) == (s + Slashes(n - 1)) + ['\\'];
      FeedOne(r, s + Slashes(n - 1), '\\');
    }
  }

  /** The number of backslashes at the end of a string. */
  function Trailing(s: string): (n: nat)
  {
    if s == "" || s[|s| - 1] != '\\' then 0 else Trailing(s[..|s| - 1]) + 1
  }

  lemma TrailingMore(s: string)
    ensures Trailing(s + ['\\']) == Trailing(s) + 1
  {
    assert (s + ['\\'])[..|s|] == s;
  }

  lemma TrailingNone(s: string, c: char)
    requires c != '\\'
    ensures Trailing(s + [c]) == 0 == Trailing("")
  {
  }

  /** The loop over the backslashes before place i. */
  method CountBack(a: string, i: nat) returns (n: nat)
    requires i <= |a|
    ensures n == Trailing(a[..i])
  {
    hide Trailing, Slashes;
    n := 0;
    var j := i;
    while j > 0 && a[j - 1] == '\\'
      invariant 0 <= j <= i && Trailing(a[..i]) == n + Trailing(a[..j])
    {
      assert a[..j] == a[..j - 1] + ['\\'];
      TrailingMore(a[..j - 1]);
      j, n := j - 1, n + 1;
    }
    if j == 0 {
      assert a[..0] == "";
      TrailingNone("", ' ');
    } else {
      assert a[..j] == a[..j - 1] + [a[j - 1]];
      TrailingNone(a[..j - 1], a[j - 1]);
    }
  }

  /** The part a[..i] of a quoted argument has been read. */
  ghost predicate Inside(r: Reader, done: seq<string>, a: string, i: nat)
  {
    && i <= |a| && r.done == done && r.quoted && r.cur.Some?
    && r.slashes == Trailing(a[..i]) && r.cur.value + Slashes(r.slashes) == a[..i]
  }

  lemma SlashesMore(x: string, n: nat)
    ensures x + Slashes(n) + ['\\'] == x + Slashes(n + 1) && x + Slashes(0) == x
  {
  }

  lemma PlainChar(r: Reader, done: seq<string>, a: string, i: nat)
    requires Inside(r, done, a, i) && i < |a| && a[i] != '"'
    ensures Inside(Step(r, a[i]), done, a, i + 1)
  {
    hide Trailing, Slashes;
    assert a[..i + 1] == a[..i] + [a[i]];
    SlashesMore(r.cur.value, r.slashes);
    if a[i] == '\\' {
      TrailingMore(a[..i]);
    } else {
      TrailingNone(a[..i], a[i]);
      SlashesMore(a[..i + 1], 0);
    }
  }

  /** The reader after a[..i]; at the end of a, the backslashes there have been doubled. */
  ghost predicate Reading(r: Reader, done: seq<string>, a: string, i: nat)
  {
    if i == |a| then r.slashes == 2 * Trailing(a) && Inside(r.(slashes := Trailing(a)), done, a, i)
    else Inside(r, done, a, i)
  }

  /** A quote after 2k + 1 backslashes, and after 2k. */
  lemma QuoteStep(r: Reader, k: nat)
    requires r.cur.Some?
    ensures Step(r.(slashes := 2 * k + 1), '"') == r.(cur := Some(r.cur.value + Slashes(k) + ['"']), slashes := 0)
    ensures Step(r.(slashes := 2 * k), '"') ==
            r.(cur := Some(r.cur.value + Slashes(k)), quoted := !r.quoted, slashes := 0)
  {
    hide Slashes;
    assert (2 * k + 1) % 2 == 1 && (2 * k + 1) / 2 == k && 2 * k % 2 == 0 && 2 * k / 2 == k;
  }

  /** After the backslashes have been doubled, a literal quote. */
  lemma QuoteChar(r: Reader, done: seq<string>, a: string, i: nat)
    requires Inside(r, done, a, i) && i < |a| && a[i] == '"'
    ensures Reading(Step(r.(slashes := 2 * r.slashes + 1), '"'), done, a, i + 1)
  {
    hide Trailing, Slashes, Step;
    assert a[..i + 1] == a[..i] + [a[i]] && a[..|a|] == a;
    TrailingNone(a[..i], a[i]);
    QuoteStep(r, r.slashes);
    SlashesMore(a[..i + 1], 0);
  }

  /** The closing quote, after doubled backslashes, and the blank that ends the argument. */
  lemma CloseQuote(r: Reader, done: seq<string>, a: string)
    requires Reading(r, done, a, |a|)
    ensures Step(Step(r, '"'), ' ') == Reader(done + [a], None, false, 0)
  {
    hide Trailing, Slashes;
    assert a[..|a|] == a;
    QuoteStep(r, Trailing(a));
    SlashesMore(a, 0);
  }

  /** A quote in the argument, escaped along with the backslashes before it. */
  method AppendQuoteChar(cmd0: string, a: string, i: nat, ghost done: seq<string>) returns (cmd: string)
    requires i < |a| && a[i] == '"' && Inside(Feed(FRESH, cmd0), done, a, i)
    ensures Reading(Feed(FRESH, cmd), done, a, i + 1)
  {
    hide Feed, Step, Trailing, Slashes, Reading;
    var n := CountBack(a, i);
    FeedSlashes(FRESH, cmd0, n + 1);
    QuoteChar(Feed(FRESH, cmd0), done, a, i);
    FeedOne(FRESH, cmd0 + Slashes(n + 1), '"');
    cmd := cmd0 + Slashes(n + 1) + ['"'];
  }

  /** Any other character; backslashes at the end are doubled for the quote to come. */
  method AppendPlainChar(cmd0: string, a: string, i: nat, ghost done: seq<string>) returns (cmd: string)
    requires i < |a| && a[i] != '"' && Inside(Feed(FRESH, cmd0), done, a, i)
    ensures Reading(Feed(FRESH, cmd), done, a, i + 1)
  {
    hide Feed, Step, Trailing, Slashes;
    PlainChar(Feed(FRESH, cmd0), done, a, i);
    FeedOne(FRESH, cmd0, a[i]);
    cmd := cmd0 + [a[i]];
    assert a[..|a|] == a;
    if a[i] == '\\' && i + 1 == |a| {
      var n := CountBack(a, i + 1);
      FeedSlashes(FRESH, cmd, n);
      cmd := cmd + Slashes(n);
    } else {
      NoneTrailing(a, i);
    }
  }

  /** An argument in quotes. */
  method AppendQuoted(cmd0: string, a: string, ghost done: seq<string>) returns (cmd: string)
    requires Feed(FRESH, cmd0) == Reader(done, None, false, 0)
    ensures Feed(FRESH, cmd) == Reader(done + [a], None, false, 0)
  {
    hide Feed, Step, Trailing, Slashes, Reading, Inside;
    cmd := cmd0 + ['"'];
    FeedOne(FRESH, cmd0, '"');
    OpenQuote(done, a);
    var i := 0;
    while i < |a|
      invariant 0 <= i <= |a| && Reading(Feed(FRESH, cmd), done, a, i)
    {
      StillInside(Feed(FRESH, cmd), done, a, i);
      if a[i] == '"' {
        cmd := AppendQuoteChar(cmd, a, i, done);
      } else {
        cmd := AppendPlainChar(cmd, a, i, done);
      }
      i := i + 1;
    }
    CloseQuote(Feed(FRESH, cmd), done, a);
    FeedOne(FRESH, cmd, '"');
    FeedOne(FRESH, cmd + ['"'], ' ');
    cmd := cmd + ['"'] + [' '];
  }

  lemma StillInside(r: Reader, done: seq<string>, a: string, i: nat)
    requires Reading(r, done, a, i) && i < |a|
    ensures Inside(r, done, a, i)
  {
  }

  lemma OpenQuote(done: seq<string>, a: string)
    ensures Reading(Step(Reader(done, None, false, 0), '"'), done, a, 0)
  {
    assert a[..0] == "" && Slashes(0) == "";
  }

  lemma NoneTrailing(a: string, i: nat)
    requires i < |a| && (i + 1 < |a| || a[i] != '\\')
    ensures i + 1 == |a| ==> Trailing(a) == 0
  {
  }

  /** An argument without blanks or quotes, as it stands: only tabs could still cut it. */
  method AppendBare(cmd0: string, a: string, ghost done: seq<string>) returns (cmd: string)
    requires Feed(FRESH, cmd0) == Reader(done, None, false, 0) && ' ' !in a && '"' !in a
    ensures Feed(FRESH, cmd) == Reader(done + Filled(Split(a, '\t')), None, false, 0)
  {
    cmd := cmd0 + a + [' '];
    FeedBare(cmd0, a, done);
    FeedOne(FRESH, cmd0 + a, ' ');
    EndBare(Feed(FRESH, cmd0 + a), done, a);
  }

  /** The nonempty fields. */
  ghost function Filled(f: seq<string>): (r: seq<string>)
  {
    if f == [] then [] else
      var n := |f| - 1;
      Filled(f[..n]) + if f[n] == "" then [] else [f[n]]
  }

  lemma FilledSnoc(f: seq<string>, x: string)
    ensures Filled(f + [x]) == Filled(f) + if x == "" then [] else [x]
  {
    assert (f + [x])[..|f|] == f;
  }

  /** The fields of a bare argument read so far: all but the last are done. */
  ghost predicate Between(r: Reader, done: seq<string>, a: string)
  {
    var f := Split(a, '\t');
    var last := f[|f| - 1];
    && r.done == done + Filled(f[..|f| - 1]) && !r.quoted
    && (if last == "" then r.cur.None? && r.slashes == 0 else r.cur.Some? && r.cur.value + Slashes(r.slashes) == last)
  }

  lemma {:induction false} FeedBare(cmd: string, a: string, done: seq<string>)
    requires Feed(FRESH, cmd) == Reader(done, None, false, 0) && ' ' !in a && '"' !in a
    ensures Between(Feed(FRESH, cmd + a), done, a)
    decreases |a|
  {
    hide Feed, Split, Filled, Step;
    if a == "" {
      assert cmd + a == cmd;
      NothingRead(done);
    } else {
      var n := |a| - 1;
      FeedBare(cmd, a[..n], done);
      assert cmd + a == (cmd + a[..n]) + [a[n]] && a == a[..n] + [a[n]];
      FeedOne(FRESH, cmd + a[..n], a[n]);
      BareChar(Feed(FRESH, cmd + a[..n]), done, a[..n], a[n]);
    }
  }

  lemma NothingRead(done: seq<string>)
    ensures Between(Reader(done, None, false, 0), done, "")
  {
    SplitNone("", '\t');
  }

  lemma BareChar(r: Reader, done: seq<string>, a: string, c: char)
    requires Between(r, done, a) && c != ' ' && c != '"'
    ensures Between(Step(r, c), done, a + [c])
  {
    hide Split, Filled;
    var f := Split(a, '\t');
    var m := |f| - 1;
    SplitSnoc(a, c, '\t');
    if c == '\t' {
      FilledSnoc(f[..m], f[m]);
      assert f[..m] + [f[m]] == f && (f + [""])[..m + 1] == f;
    } else {
      var g := f[..m] + [f[m] + [c]];
      assert g[..m] == f[..m];
      assert Slashes(0) == "" && Slashes(r.slashes) + ['\\'] == Slashes(r.slashes + 1);
    }
  }

  lemma EndBare(r: Reader, done: seq<string>, a: string)
    requires Between(r, done, a)
    ensures Step(r, ' ') == Reader(done + Filled(Split(a, '\t')), None, false, 0)
  {
    hide Split, Filled;
    var f := Split(a, '\t');
    FilledSnoc(f[..|f| - 1], f[|f| - 1]);
    assert f == f[..|f| - 1] + [f[|f| - 1]];
  }

  predicate NeedsQuotes(a: string)
  {
    a == "" || ' ' in a || '"' in a
  }

  /** What one argument is read back as. */
  ghost function Pieces(a: string): (p: seq<string>)
  {
    if NeedsQuotes(a) then [a] else Filled(Split(a, '\t'))
  }

  ghost function AllPieces(args: seq<string>): (p: seq<string>)
  {
    if args == [] then [] else AllPieces(args[..|args| - 1]) + Pieces(args[|args| - 1])
  }

  /** The scan that decides on quotes. */
  method Scan(a: string) returns (quote: bool)
    ensures quote == NeedsQuotes(a)
  {
    quote := |a| == 0;
    for i := 0 to |a|
      invariant quote == (a == "") && ' ' !in a[..i] && '"' !in a[..i]
    {
      if a[i] == ' ' || a[i] == '"' { return true; }
    }
    assert a[..|a|] == a;
  }

  /** The argument part of the command line, which the program reads back exactly when there is no bare tab. */
  method ArgumentString(args: seq<string>) returns (cmd: string)
    ensures ReadArgs(cmd) == AllPieces(args)
    ensures ReadArgs(cmd) == args <==> forall k :: 0 <= k < |args| ==> !BareTab(args[k])
  {
    hide Feed;
    RoundTripArgs(args);
    cmd := "";
    NothingFed();
    for k := 0 to |args|
      invariant Feed(FRESH, cmd) == Reader(AllPieces(args[..k]), None, false, 0)
    {
      var a := args[k];
      assert args[..k + 1][..k] == args[..k];
      var quote := Scan(a);
      if quote {
        cmd := AppendQuoted(cmd, a, AllPieces(args[..k]));
      } else {
        cmd := AppendBare(cmd, a, AllPieces(args[..k]));
      }
    }
    assert args[..|args|] == args;
  }

  lemma NothingFed()
    ensures Feed(FRESH, "") == FRESH
  {
  }

  /** A tab in an argument that gets no quotes. */
  predicate BareTab(a: string)
  {
    '\t' in a && !NeedsQuotes(a)
  }

  lemma {:induction false} FilledPlain(f: seq<string>, x: string)
    requires x in Filled(f)
    ensures x in f && x != ""
    decreases |f|
  {
    if x in Filled(f[..|f| - 1]) { FilledPlain(f[..|f| - 1], x); }
  }

  lemma {:induction false} FieldsPlain(s: string, sep: char, x: string)
    requires x in Split(s, sep)
    ensures sep !in x
    decreases |s|
  {
    if s != "" {
      var n := |s| - 1;
      var f := Split(s[..n], sep);
      if x in f {
        FieldsPlain(s[..n], sep, x);
      } else if s[n] != sep {
        FieldsPlain(s[..n], sep, f[|f| - 1]);
      }
    }
  }

  /** Nothing that is read back has a bare tab. */
  lemma PiecesPlain(a: string, x: string)
    requires x in Pieces(a)
    ensures !BareTab(x)
  {
    if !NeedsQuotes(a) {
      FilledPlain(Split(a, '\t'), x);
      FieldsPlain(a, '\t', x);
    }
  }

  lemma {:induction false} AllPiecesPlain(args: seq<string>, x: string)
    requires x in AllPieces(args)
    ensures !BareTab(x)
    decreases |args|
  {
    var n := |args| - 1;
    if x in AllPieces(args[..n]) { AllPiecesPlain(args[..n], x); } else { PiecesPlain(args[n], x); }
  }

  lemma PiecesSame(a: string)
    requires !BareTab(a)
    ensures Pieces(a) == [a]
  {
    if !NeedsQuotes(a) {
      SplitNone(a, '\t');
      FilledSnoc([], a);
      assert [] + [a] == [a];
    }
  }

  lemma {:induction false} AllPiecesSame(args: seq<string>)
    requires forall k :: 0 <= k < |args| ==> !BareTab(args[k])
    ensures AllPieces(args) == args
    decreases |args|
  {
    if args != [] {
      hide Pieces, BareTab, AllPieces;
      var n := |args| - 1;
      AllPiecesSame(args[..n]);
      PiecesSame(args[n]);
      AllPiecesLast(args);
    }
  }

  lemma AllPiecesLast(args: seq<string>)
    requires args != []
    ensures AllPieces(args) == AllPieces(args[..|args| - 1]) + Pieces(args[|args| - 1])
  {
  }

  /** The program gets back the arguments it was given exactly when none of them has a bare tab. */
  lemma RoundTripArgs(args: seq<string>)
    ensures AllPieces(args) == args <==> forall k :: 0 <= k < |args| ==> !BareTab(args[k])
  {
    if forall k :: 0 <= k < |args| ==> !BareTab(args[k]) {
      AllPiecesSame(args);
    } else {
      var k :| 0 <= k < |args| && BareTab(args[k]);
      if AllPieces(args) == args {
        assert args[k] in AllPieces(args);
        AllPiecesPlain(args, args[k]);
      }
    }
  }

  /** An argument that is a tab alone is lost. */
  lemma TabIsLost()
    ensures AllPieces(["\t"]) == []
  {
    hide Split, Filled;
    var a := "\t";
    SplitNone("", '\t');
    SplitSnoc("", '\t', '\t');
    assert "" + ['\t'] == a && [""] + [""] == ["", ""];
    FilledSnoc([""], "");
    FilledSnoc([], "");
    assert [] + [""] == [""];
    NoneFilled();
    assert Pieces(a) == [];
    assert ["\t"][..0] == [];
  }

  lemma NoneFilled()
    ensures Filled([]) == []
  {
  }
}
