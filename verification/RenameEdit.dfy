/** Renaming a column in the text of a statement: every token that names the column is replaced, in
    place and from right to left. */
module RenameEdit {

  /** A token of the statement: where it starts and how long it is. */
  datatype Token = Token(off: nat, n: nat)

  const NUL: char := 0 as char

  ghost predicate NoNul(s: seq<char>) { forall i :: 0 <= i < |s| ==> s[i] != NUL }

  /** The tokens lie within the statement and do not overlap; their order in the list does not matter. */
  ghost predicate TokensOk(sql: seq<char>, list: seq<Token>) {
    && (forall i :: 0 <= i < |list| ==> list[i].n > 0 && list[i].off + list[i].n <= |sql|)
    && (forall i, j :: 0 <= i < j < |list| ==> Apart(list[i], list[j]))
  }

  ghost predicate Apart(s: Token, t: Token) { s.off + s.n <= t.off || t.off + t.n <= s.off }

  // ----- Quoting

  function Escape(s: seq<char>): (r: seq<char>)
    ensures |r| >= |s|
  {
    if s == [] then [] else (if s[0] == '"' then ['"', '"'] else [s[0]]) + Escape(s[1..])
  }

  function Quote(s: seq<char>): (r: seq<char>)
    ensures |r| >= |s| + 2
  {
    ['"'] + Escape(s) + ['"']
  }

  /** What a quoted identifier stands for. */
  function Unescape(s: seq<char>): seq<char> {
    if s == [] then []
    else if |s| >= 2 && s[0] == '"' && s[1] == '"' then ['"'] + Unescape(s[2..])
    else [s[0]] + Unescape(s[1..])
  }

  lemma {:induction false} EscapeRoundTrip(s: seq<char>)
    ensures Unescape(Escape(s)) == s
  {
    if s != [] {
      EscapeRoundTrip(s[1..]);
      var r := Escape(s[1..]);
      if s[0] == '"' {
        assert Escape(s)[2..] == r;
      } else {
        assert Escape(s)[1..] == r;
      }
    }
  }

  // ----- Simultaneous substitution

  /** The index of the token that starts at i, or -1. */
  function StartsAt(list: seq<Token>, i: nat): (k: int)
    ensures -1 <= k < |list| && (k >= 0 ==> list[k].off == i)
    ensures k == -1 <==> forall j :: 0 <= j < |list| ==> list[j].off != i
  {
    if list == [] then -1 else if list[|list| - 1].off == i then |list| - 1 else StartsAt(list[..|list| - 1], i)
  }

  /** The text that replaces a token: the new name, quoted if the token was quoted or if always. */
  function Replacement(isId: char -> bool, sql: seq<char>, newName: seq<char>, quote: bool, off: nat): (r: seq<char>)
    requires off < |sql|
    ensures |r| <= |Quote(newName)|
  {
    if quote || !isId(sql[off]) then Quote(newName) else newName
  }

  /** The statement from i on with all tokens replaced at once. */
  function Subst(isId: char -> bool, sql: seq<char>, newName: seq<char>, quote: bool, list: seq<Token>,
                 i: nat): seq<char>
    decreases |sql| - i
  {
    if i >= |sql| then []
    else
      var k := StartsAt(list, i);
      if k >= 0 && list[k].n > 0
          then Replacement(isId, sql, newName, quote, i) + Subst(isId, sql, newName, quote, list, i + list[k].n)
      else [sql[i]] + Subst(isId, sql, newName, quote, list, i + 1)
  }

  lemma SubstPlain(isId: char -> bool, sql: seq<char>, newName: seq<char>, quote: bool, list: seq<Token>, i: nat)
    requires i < |sql| && forall k :: 0 <= k < |list| ==> list[k].off != i
    ensures Subst(isId, sql, newName, quote, list, i) == [sql[i]] + Subst(isId, sql, newName, quote, list, i + 1)
  {
    hide Replacement, StartsAt;
  }

  lemma {:induction false} NoTokens(isId: char -> bool, sql: seq<char>, newName: seq<char>, quote: bool,
                                    list: seq<Token>, i: nat, b: nat)
    requires i <= b <= |sql| && forall k :: 0 <= k < |list| ==> list[k].off < i || b <= list[k].off
    ensures Subst(isId, sql, newName, quote, list, i) == sql[i..b] + Subst(isId, sql, newName, quote, list, b)
    decreases b - i
  {
    hide Subst;
    if i < b {
      SubstPlain(isId, sql, newName, quote, list, i);
      NoTokens(isId, sql, newName, quote, list, i + 1, b);
      assert sql[i..b] == [sql[i]] + sql[i + 1..b];
    } else {
      assert sql[i..b] == [];
    }
  }

  lemma SubstToken(isId: char -> bool, sql: seq<char>, newName: seq<char>, quote: bool, list: seq<Token>, k: nat)
    requires TokensOk(sql, list) && k < |list|
    ensures var t := list[k];
            Subst(isId, sql, newName, quote, list, t.off)
                == Replacement(isId, sql, newName, quote, t.off) + Subst(isId, sql, newName, quote, list, t.off + t.n)
  {
    hide Replacement, StartsAt;
    OnlyToken(sql, list, k, StartsAt(list, list[k].off));
  }

  lemma OnlyToken(sql: seq<char>, list: seq<Token>, k: nat, j: int)
    requires TokensOk(sql, list) && k < |list| && 0 <= j < |list| && list[j].off == list[k].off
    ensures j == k
  {
  }

  /** Scanning from i, which is not inside a token, the substitution comes to token k. */
  lemma {:induction false} ReachesToken(isId: char -> bool, sql: seq<char>, newName: seq<char>, quote: bool,
                                        list: seq<Token>, i: nat, k: nat) returns (before: seq<char>)
    requires TokensOk(sql, list) && k < |list| && i <= list[k].off
    requires forall j :: 0 <= j < |list| ==> i <= list[j].off || list[j].off + list[j].n <= i
    ensures Subst(isId, sql, newName, quote, list, i) == before + Subst(isId, sql, newName, quote, list, list[k].off)
    decreases list[k].off - i
  {
    hide Subst, Replacement, StartsAt;
    if i == list[k].off {
      before := [];
    } else if j :| 0 <= j < |list| && list[j].off == i {
      assert Apart(list[if j < k then j else k], list[if j < k then k else j]);
      forall l | 0 <= l < |list| && l != j
        ensures i + list[j].n <= list[l].off || list[l].off + list[l].n <= i + list[j].n
      {
        assert Apart(list[if j < l then j else l], list[if j < l then l else j]);
      }
      SubstToken(isId, sql, newName, quote, list, j);
      before := ReachesToken(isId, sql, newName, quote, list, i + list[j].n, k);
      before := Replacement(isId, sql, newName, quote, i) + before;
    } else {
      SubstPlain(isId, sql, newName, quote, list, i);
      before := ReachesToken(isId, sql, newName, quote, list, i + 1, k);
      before := [sql[i]] + before;
    }
  }

  /** Every token is replaced by a form of the new name: by the bare name if the token is a bare identifier
      and the name need not be quoted, otherwise by a quoted identifier that stands for the name. */
  lemma TokenReplaced(isId: char -> bool, sql: seq<char>, newName: seq<char>, quote: bool, list: seq<Token>, k: nat)
    returns (before: seq<char>, name: seq<char>)
    requires TokensOk(sql, list) && k < |list|
    ensures Subst(isId, sql, newName, quote, list, 0)
            == before + name + Subst(isId, sql, newName, quote, list, list[k].off + list[k].n)
    ensures isId(sql[list[k].off]) && !quote ==> name == newName
    ensures !isId(sql[list[k].off]) || quote ==> IsQuoted(name, newName)
  {
    hide Subst, Escape, Unescape;
    before := ReachesToken(isId, sql, newName, quote, list, 0, k);
    SubstToken(isId, sql, newName, quote, list, k);
    name := Replacement(isId, sql, newName, quote, list[k].off);
    EscapeRoundTrip(newName);
    assert Quote(newName)[1..|Quote(newName)| - 1] == Escape(newName);
  }

  /** A text in double quotes that stands for a name. */
  ghost predicate IsQuoted(text: seq<char>, name: seq<char>) {
    |text| >= 2 && text[0] == text[|text| - 1] == '"' && Unescape(text[1..|text| - 1]) == name
  }

  // ----- The edit

  /** Takes the last token off the list. */
  method TokenNext(list: seq<Token>) returns (best: Token, rest: seq<Token>, ghost at: nat)
    requires list != []
    ensures at < |list| && best == list[at] && rest == Without(list, at)
    ensures forall i :: 0 <= i < |list| ==> list[i].off <= best.off
  {
    best, at := list[0], 0;
    for i := 1 to |list|
      invariant at < |list| && best == list[at] && forall k :: 0 <= k < i ==> list[k].off <= best.off
    {
      if list[i].off > best.off { best, at := list[i], i; }
    }
    var p := 0;
    while list[p] != best
      invariant p <= at && forall k :: 0 <= k < p ==> list[k] != best
      decreases at - p
    {
      p := p + 1;
    }
    at := p;
    rest := Without(list, p);
  }

  function Moved(z: seq<char>, to: nat, from: nat, n: nat): (r: seq<char>)
    requires to + n <= |z| && from + n <= |z|
    ensures |r| == |z|
  {
    z[..to] + z[from..from + n] + z[to + n..]
  }

  function Copied(z: seq<char>, to: nat, s: seq<char>): (r: seq<char>)
    requires to + |s| <= |z|
    ensures |r| == |z|
  {
    z[..to] + s + z[to + |s|..]
  }

  method MemMove(a: array<char>, to: nat, from: nat, n: nat)
    requires to + n <= a.Length && from + n <= a.Length
    modifies a
    ensures a[..] == Moved(old(a[..]), to, from, n)
  {
    forall i | 0 <= i < n { a[to + i] := a[from + i]; }
  }

  method MemCopy(a: array<char>, to: nat, s: seq<char>)
    requires to + |s| <= a.Length
    modifies a
    ensures a[..] == Copied(old(a[..]), to, s)
  {
    forall i | 0 <= i < |s| { a[to + i] := s[i]; }
  }

  /** Replaces the n characters at off by s. */
  function Edited(z: seq<char>, off: nat, n: nat, s: seq<char>): seq<char>
    requires off + n <= |z|
  {
    z[..off] + s + z[off + n..]
  }

  /** The buffer after the two moves of a replacement. */
  lemma ReplacedText(b: seq<char>, b1: seq<char>, nOut: nat, off: nat, n: nat, s: seq<char>)
    requires off + n <= nOut < |b| && nOut - n + |s| < |b|
    requires if n == |s| then b1 == b
             else |b1| == |b| && b1[..off + |s|] == b[..off + |s|] && b1[off + |s|..nOut - n + |s|] == b[off + n..nOut]
    ensures var b2, m := Copied(b1, off, s), nOut - n + |s|; b2[..m] == Edited(b[..nOut], off, n, s) && b2[m] == b1[m]
  {
    var b2 := Copied(b1, off, s);
    var m := nOut - n + |s|;
    assert b1[off + |s|..m] == b[off + n..nOut] == b[..nOut][off + n..];
    assert b1[..off] == b1[..off + |s|][..off] == b[..off] == b[..nOut][..off];
    assert b2[..m] == b1[..off] + s + b1[off + |s|..m];
  }

  /** One replacement within the buffer: the text before nOut changes, and stays terminated. */
  method ReplaceToken(a: array<char>, nOut: nat, off: nat, n: nat, s: seq<char>) returns (nOut': nat)
    requires off + n <= nOut < a.Length && a[nOut] == NUL && nOut - n + |s| < a.Length
    modifies a
    ensures nOut' == nOut - n + |s| && a[..nOut'] == Edited(old(a[..nOut]), off, n, s) && a[nOut'] == NUL
  {
    hide Moved, Copied, Edited;
    nOut' := nOut;
    ghost var b := a[..];
    if n != |s| {
      MemMove(a, off + |s|, off + n, nOut - (off + n));
      nOut' := nOut + |s| - n;
      ghost var b0 := a[..];
      a[nOut'] := NUL;
      assert a[..] == b0[nOut' := NUL];
      MovedText(b, a[..], nOut, off, n, |s|);
    }
    ghost var b1 := a[..];
    assert b1[nOut'] == NUL;
    MemCopy(a, off, s);
    ghost var b2 := a[..];
    ReplacedText(b, b1, nOut, off, n, s);
    assert a[..nOut'] == b2[..nOut'] && a[nOut'] == b2[nOut'];
    assert old(a[..nOut]) == b[..nOut];
  }

  lemma MovedText(b: seq<char>, b1: seq<char>, nOut: nat, off: nat, n: nat, m: nat)
    requires off + n <= nOut < |b| && nOut - n + m < |b|
    requires b1 == Moved(b, off + m, off + n, nOut - (off + n))[nOut - n + m := NUL]
    ensures |b1| == |b| && b1[..off + m] == b[..off + m] && b1[off + m..nOut - n + m] == b[off + n..nOut]
  {
  }

  /** The statement with the tokens from b on replaced. */
  function EditedFrom(isId: char -> bool, sql: seq<char>, newName: seq<char>, quote: bool, list: seq<Token>,
                      b: nat): seq<char>
    requires b <= |sql|
  {
    sql[..b] + Subst(isId, sql, newName, quote, list, b)
  }

  /** No tokens start between i and b, and the text from b on has been edited. */
  lemma EditStep(isId: char -> bool, sql: seq<char>, newName: seq<char>, quote: bool, list: seq<Token>, k: nat, b: nat)
    requires TokensOk(sql, list) && k < |list| && list[k].off + list[k].n <= b <= |sql|
    requires forall j :: 0 <= j < |list| ==> list[j].off <= list[k].off || b <= list[j].off
    ensures var t := list[k];
            && t.off + t.n <= |EditedFrom(isId, sql, newName, quote, list, b)|
            && Edited(EditedFrom(isId, sql, newName, quote, list, b), t.off, t.n,
               Replacement(isId, sql, newName, quote, t.off))
               == EditedFrom(isId, sql, newName, quote, list, t.off)
  {
    hide Subst, Replacement;
    var t, tail, r := list[k], Subst(isId, sql, newName, quote, list, b),
        Replacement(isId, sql, newName, quote, list[k].off);
    SubstToken(isId, sql, newName, quote, list, k);
    NoTokens(isId, sql, newName, quote, list, t.off + t.n, b);
    EditText(sql, b, tail, t.off, t.n, r);
    assert sql[..t.off] + (r + (sql[t.off + t.n..b] + tail)) == sql[..t.off] + r + (sql[t.off + t.n..b] + tail);
  }

  lemma EditText(sql: seq<char>, b: nat, tail: seq<char>, off: nat, n: nat, r: seq<char>)
    requires off + n <= b <= |sql|
    ensures Edited(sql[..b] + tail, off, n, r) == sql[..off] + r + (sql[off + n..b] + tail)
  {
    var z := sql[..b] + tail;
    assert z[..off] == sql[..off];
    assert z[off + n..] == sql[off + n..b] + tail;
  }

  /** Tokens still on the list lie before b, those taken off start at b or later. */
  ghost predicate Pending(all: seq<Token>, list: seq<Token>, b: nat) {
    && (forall i :: 0 <= i < |list| ==> list[i] in all && list[i].off + list[i].n <= b)
    && (forall t :: t in all ==> t in list || b <= t.off)
  }

  lemma PendingNext(sql: seq<char>, all: seq<Token>, list: seq<Token>, b: nat, at: nat, k: nat)
    requires TokensOk(sql, all) && TokensOk(sql, list) && Pending(all, list, b) && at < |list| && k < |all|
             && all[k] == list[at]
    requires forall i :: 0 <= i < |list| ==> list[i].off <= list[at].off
    ensures TokensOk(sql, Without(list, at)) && Pending(all, Without(list, at), list[at].off)
    ensures forall j :: 0 <= j < |all| ==> all[j].off <= all[k].off || b <= all[j].off
  {
    hide Without, Apart;
    RestOk(sql, list, at);
    assert forall t :: t in all && t in list ==> t.off <= list[at].off;
    forall j | 0 <= j < |all| ensures all[j].off <= all[k].off || b <= all[j].off { assert all[j] in all; }
  }

  function Without(list: seq<Token>, at: nat): (r: seq<Token>)
    requires at < |list|
    ensures |r| == |list| - 1 && forall i :: 0 <= i < |r| ==> r[i] == list[if i < at then i else i + 1]
    ensures forall t :: t in list ==> t in r || t == list[at]
    ensures forall t :: t in r ==> t in list
  {
    assert list == list[..at] + [list[at]] + list[at + 1..];
    list[..at] + list[at + 1..]
  }

  /** The other tokens end before the last one starts. */
  lemma RestOk(sql: seq<char>, list: seq<Token>, at: nat)
    requires TokensOk(sql, list) && at < |list| && forall i :: 0 <= i < |list| ==> list[i].off <= list[at].off
    ensures TokensOk(sql, Without(list, at))
            && forall i :: 0 <= i < |list| - 1 ==> Without(list, at)[i].off + Without(list, at)[i].n <= list[at].off
  {
    hide Without;
    var rest := Without(list, at);
    forall i | 0 <= i < |rest| ensures rest[i].off + rest[i].n <= list[at].off {
      var j := if i < at then i else i + 1;
      if j < at { assert Apart(list[j], list[at]); } else { assert Apart(list[at], list[j]); }
    }
  }

  /** Edits the statement: the result is the simultaneous substitution of all tokens, whatever the order
      of the list, and the buffer of nSql + nList * nQuot + 1 characters is never exceeded. */
  method RenameEditSql(isId: char -> bool, sql: seq<char>, newName: seq<char>, bQuote: bool, list: seq<Token>)
    returns (text: seq<char>)
    requires TokensOk(sql, list) && NoNul(sql) && NoNul(newName)
    ensures text == Subst(isId, sql, newName, bQuote, list, 0)
  {
    hide Subst, Replacement, TokensOk, Pending, Edited, Quote, Enough, NoNul, Without, EditedFrom;
    var quot, nSql := Quote(newName), |sql|;
    var nQuot := |quot|;
    var a := new char[Enough(nSql, |list|, nQuot) + 1](_ => NUL);
    assert Enough(nSql, 0, nQuot) == nSql <= Enough(nSql, |list|, nQuot) by { Room(nSql, |list|, 0, nQuot); }
    MemCopy(a, 0, sql);
    var nOut: nat, left := nSql, list;
    ghost var b: nat := nSql;
    StartText(isId, sql, newName, bQuote, list, a[..]);
    while left != []
      invariant |left| <= |list| && nOut <= Enough(nSql, |list| - |left|, nQuot)
      invariant b <= nSql && TokensOk(sql, left) && Pending(list, left, b)
      invariant nOut < a.Length && a[nOut] == NUL && a[..nOut] == EditedFrom(isId, sql, newName, bQuote, list, b)
      decreases |left|
    {
      ghost var at;
      ghost var was := left;
      var best;
      best, left, at := TokenNext(left);
      ghost var k := FindToken(sql, list, was, b, at);
      PendingNext(sql, list, was, b, at, k);
      EditStep(isId, sql, newName, bQuote, list, k, b);
      var s := Replacement(isId, sql, newName, bQuote, best.off);
      Room(nSql, |list|, |list| - |left|, nQuot);
      nOut := ReplaceToken(a, nOut, best.off, best.n, s);
      b := best.off;
    }
    NoneLeft(isId, sql, newName, bQuote, list, b);
    SubstNoNul(isId, sql, newName, bQuote, list, 0);
    text := TextOf(a, nOut);
  }

  /** The terminated text in a buffer. */
  method TextOf(a: array<char>, ghost nOut: nat) returns (text: seq<char>)
    requires nOut < a.Length && a[nOut] == NUL && NoNul(a[..nOut])
    ensures text == a[..nOut]
  {
    var n := 0;
    assert forall i :: 0 <= i < nOut ==> a[i] == a[..nOut][i];
    while a[n] != NUL
      invariant n <= nOut
      decreases nOut - n
    {
      n := n + 1;
    }
    text := a[..n];
  }

  /** Characters that suffice after k replacements. */
  function Enough(nSql: nat, k: nat, nQuot: nat): nat { nSql + k * nQuot }

  lemma StartText(isId: char -> bool, sql: seq<char>, newName: seq<char>, quote: bool, list: seq<Token>, z: seq<char>)
    requires TokensOk(sql, list) && |z| > |sql| && z[..|sql|] == sql
    ensures Pending(list, list, |sql|) && z[..|sql|] == EditedFrom(isId, sql, newName, quote, list, |sql|)
  {
    hide Replacement;
  }

  lemma FindToken(sql: seq<char>, all: seq<Token>, list: seq<Token>, b: nat, at: nat) returns (k: nat)
    requires TokensOk(sql, all) && Pending(all, list, b) && at < |list|
    ensures k < |all| && all[k] == list[at] && list[at].off + list[at].n <= b && list[at].off < |sql|
  {
    assert list[at] in all;
    k :| 0 <= k < |all| && all[k] == list[at];
  }

  lemma Room(nSql: nat, nList: nat, k: nat, nQuot: nat)
    requires k <= nList
    ensures nSql <= Enough(nSql, k, nQuot) <= Enough(nSql, nList, nQuot) && Enough(nSql, 0, nQuot) == nSql
    ensures k > 0 ==> Enough(nSql, k, nQuot) == Enough(nSql, k - 1, nQuot) + nQuot
  {
    assert nList * nQuot == k * nQuot + (nList - k) * nQuot;
    if k > 0 { assert k * nQuot == (k - 1) * nQuot + nQuot; }
  }

  lemma NoneLeft(isId: char -> bool, sql: seq<char>, newName: seq<char>, quote: bool, list: seq<Token>, b: nat)
    requires Pending(list, [], b) && b <= |sql|
    ensures EditedFrom(isId, sql, newName, quote, list, b) == Subst(isId, sql, newName, quote, list, 0)
  {
    hide Subst;
    forall k | 0 <= k < |list| ensures b <= list[k].off { assert list[k] in list; }
    NoTokens(isId, sql, newName, quote, list, 0, b);
    assert sql[0..b] == sql[..b];
  }

  lemma {:induction false} EscapeNoNul(s: seq<char>)
    requires NoNul(s)
    ensures NoNul(Escape(s))
  {
    if s != [] { EscapeNoNul(s[1..]); }
  }

  lemma ReplacementNoNul(isId: char -> bool, sql: seq<char>, newName: seq<char>, quote: bool, off: nat)
    requires NoNul(newName) && off < |sql|
    ensures NoNul(Replacement(isId, sql, newName, quote, off))
  {
    EscapeNoNul(newName);
  }

  lemma NoNulConcat(a: seq<char>, b: seq<char>)
    requires NoNul(a) && NoNul(b)
    ensures NoNul(a + b)
  {
  }

  lemma NoNulOne(s: seq<char>, i: nat)
    requires NoNul(s) && i < |s|
    ensures NoNul([s[i]])
  {
  }

  lemma NoNulNone()
    ensures NoNul([])
  {
  }

  lemma {:induction false} SubstNoNul(isId: char -> bool, sql: seq<char>, newName: seq<char>, quote: bool,
                                      list: seq<Token>, i: nat)
    requires NoNul(sql) && NoNul(newName)
    ensures NoNul(Subst(isId, sql, newName, quote, list, i))
    decreases |sql| - i
  {
    hide Replacement, StartsAt, NoNul;
    if i < |sql| {
      var k := StartsAt(list, i);
      if k >= 0 && list[k].n > 0 {
        SubstNoNul(isId, sql, newName, quote, list, i + list[k].n);
        ReplacementNoNul(isId, sql, newName, quote, i);
        NoNulConcat(Replacement(isId, sql, newName, quote, i), Subst(isId, sql, newName, quote, list, i + list[k].n));
      } else {
        SubstNoNul(isId, sql, newName, quote, list, i + 1);
        NoNulOne(sql, i);
        NoNulConcat([sql[i]], Subst(isId, sql, newName, quote, list, i + 1));
      }
    } else {
      NoNulNone();
    }
  }
}
