/** Building the roster from the setup form: each entry's name is trimmed,
    and only entries with a non-empty trimmed name become players. */
module Setup {
  import opened Rules
  import opened Players

  /** One row of the setup form: the typed name and the chosen class. */
  datatype Entry = Entry(name: string, cls: PlayerClass)

  /** The characters JavaScript's `String.prototype.trim` removes: the
      ECMAScript WhiteSpace and LineTerminator code points. */
  predicate IsWhitespace(c: char) {
    var u := c as int;
    || 0x09 <= u <= 0x0D
    || u == 0x20 || u == 0xA0 || u == 0x1680
    || 0x2000 <= u <= 0x200A
    || u == 0x2028 || u == 0x2029 || u == 0x202F || u == 0x205F
    || u == 0x3000 || u == 0xFEFF
  }

  /** `s` has some character that trimming keeps. */
  predicate HasVisibleChar(s: string) {
    exists i :: 0 <= i < |s| && !IsWhitespace(s[i])
  }

  /** The index of the first character trimming keeps, or `|s|` when every
      character is whitespace. */
  function FirstKept(s: string): (a: nat)
    ensures a <= |s|
    ensures forall i :: 0 <= i < a ==> IsWhitespace(s[i])
    ensures a < |s| ==> !IsWhitespace(s[a])
  {
    if |s| > 0 && IsWhitespace(s[0]) then
      var a := 1 + FirstKept(s[1..]);
      assert forall i :: 1 <= i < a ==> s[i] == s[1..][i - 1];
      a
    else 0
  }

  /** The index just after the last character trimming keeps, or 0 when
      every character is whitespace. */
  function KeptEnd(s: string): (b: nat)
    ensures b <= |s|
    ensures forall i :: b <= i < |s| ==> IsWhitespace(s[i])
    ensures b > 0 ==> !IsWhitespace(s[b - 1])
  {
    if |s| > 0 && IsWhitespace(s[|s| - 1]) then
      var b := KeptEnd(s[..|s| - 1]);
      assert forall i :: b <= i < |s| - 1 ==> s[i] == s[..|s| - 1][i];
      b
    else |s|
  }

  /** `s[a..b]` is `s` with only whitespace cut from either end. */
  predicate StripsTo(s: string, a: int, b: int) {
    && 0 <= a <= b <= |s|
    && (forall i :: 0 <= i < a ==> IsWhitespace(s[i]))
    && (forall i :: b <= i < |s| ==> IsWhitespace(s[i]))
  }

  /** `s` without leading and trailing whitespace. It is exactly `s` with
      whitespace cut from both ends and nothing else; it is empty exactly when
      every character of `s` is whitespace, and otherwise starts and ends
      with a kept character. */
  function Trim(s: string): (r: string)
    ensures r != [] <==> HasVisibleChar(s)
    ensures r != [] ==> !IsWhitespace(r[0]) && !IsWhitespace(r[|r| - 1])
    ensures exists a, b :: StripsTo(s, a, b) && r == s[a..b]
  {
    var a := FirstKept(s);
    if a == |s| then
      assert StripsTo(s, |s|, |s|) && s[|s|..|s|] == [];
      []
    else
      var b := KeptEnd(s);
      // the kept character at `a` is not in the whitespace tail
      assert a < b;
      assert StripsTo(s, a, b);
      s[a..b]
  }

  /** Trimming twice is trimming once. */
  lemma TrimIdempotent(s: string)
    ensures Trim(Trim(s)) == Trim(s)
  {
    var r := Trim(s);
    if r != [] {
      assert FirstKept(r) == 0;
      assert KeptEnd(r) == |r|;
      assert r[0..|r|] == r;
    }
  }

  /** The entries that become players, in form order: exactly those whose
      name has a character trimming keeps. */
  function Named(entries: seq<Entry>): (named: seq<Entry>)
    ensures |named| <= |entries|
    ensures forall i :: 0 <= i < |named| ==> HasVisibleChar(named[i].name) && named[i] in entries
    ensures forall i :: 0 <= i < |entries| && HasVisibleChar(entries[i].name) ==> entries[i] in named
  {
    if |entries| == 0 then []
    else if HasVisibleChar(entries[0].name) then [entries[0]] + Named(entries[1..])
    else Named(entries[1..])
  }

  /** Filtering the form distributes over concatenation: the entries kept
      from `a + b` are those kept from `a` followed by those kept from `b`.
      With `NamedOfOne` this fixes `Named` completely, order and count
      included. */
  lemma {:induction false} NamedDistributes(a: seq<Entry>, b: seq<Entry>)
    ensures Named(a + b) == Named(a) + Named(b)
  {
    if a == [] {
      assert a + b == b;
    } else {
      assert (a + b)[0] == a[0];
      assert (a + b)[1..] == a[1..] + b;
      NamedDistributes(a[1..], b);
    }
  }

  /** A single entry is kept exactly when its name has a visible character. */
  lemma NamedOfOne(e: Entry)
    ensures Named([e]) == if HasVisibleChar(e.name) then [e] else []
  {
    assert [e][1..] == [];
  }

  /** A player as the setup creates it. */
  function NewPlayer(name: string, cls: PlayerClass, d: Difficulty): (p: Player)
    ensures p.name == name && p.cls == cls
    ensures |name| > 0 ==> Fresh(p, d) && forall size :: size >= 1 ==> InBounds(p, size)
  {
    Player(name, cls, 0, MaxHP(d), MaxHP(d), 0, 0, false, 0, false, PassiveCount(cls))
  }

  /** A player fresh from setup on difficulty `d`: on the start tile with full
      hit points, the class's passive uses, and every other counter at zero. */
  predicate Fresh(p: Player, d: Difficulty) {
    && |p.name| > 0
    && p.position == 0
    && p.hp == MaxHP(d) && p.maxHP == MaxHP(d)
    && p.shield == 0
    && p.spellCooldown == 0 && !p.spellActive
    && p.immunityTurns == 0 && !p.skipTurn
    && p.passiveCount == PassiveCount(p.cls)
  }

  /** The roster built from the form: one fresh player for each entry whose
      trimmed name is non-empty, in form order, named by the trimmed name. */
  function BuildPlayers(entries: seq<Entry>, d: Difficulty): (ps: seq<Player>)
    ensures |ps| == |Named(entries)|
    ensures forall i :: 0 <= i < |ps| ==>
      && ps[i].name == Trim(Named(entries)[i].name)
      && ps[i].cls == Named(entries)[i].cls
      && Fresh(ps[i], d)
  {
    var named := Named(entries);
    seq(|named|, i requires 0 <= i < |named| => NewPlayer(Trim(named[i].name), named[i].cls, d))
  }
}
