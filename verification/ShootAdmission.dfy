/** Cross-shoot admission of node CIDRs: the listing loop, and what every sequential run of
  * admitted writes keeps. */
module ShootAdmission {
  import opened Prelude
  import opened Cidr

  /** The stored provider configuration: absent, not decodable, or with this node CIDR text. */
  datatype Stored = Absent | Undecodable | NodeCIDR(text: string)

  datatype Shoot = Shoot(namespace: string, name: string, profile: string, config: Stored)

  predicate HasBlock(parse: Parser, s: Shoot) { s.config.NodeCIDR? && parse(s.config.text).Some? }

  function BlockOf(parse: Parser, s: Shoot): Block
    requires HasBlock(parse, s)
  {
    parse(s.config.text).value
  }

  /** The two shoots are compared at all. */
  predicate Compared(a: Shoot, b: Shoot) { a.name != b.name && a.profile == b.profile }

  ghost predicate Collide(parse: Parser, a: Shoot, b: Shoot) {
    HasBlock(parse, a) && HasBlock(parse, b) && ShareAddress(BlockOf(parse, a), BlockOf(parse, b))
  }

  /** The shoot's own node CIDR parses, and no compared shoot in the list uses one of its addresses. */
  ghost predicate Admits(parse: Parser, shoot: Shoot, others: set<Shoot>) {
    HasBlock(parse, shoot) && forall o :: o in others && Compared(shoot, o) ==> !Collide(parse, shoot, o)
  }

  /** `shoot` carries its decoded configuration; `listed` is absent when the list call failed. */
  method ValidateNodeCIDRNotOverlap(parse: Parser, shoot: Shoot, listed: Option<seq<Shoot>>) returns (ok: bool)
    requires shoot.config.NodeCIDR?
    ensures ok <==> listed.Some? && Admits(parse, shoot, set o | o in listed.value)
  {
    if listed.None? { return false; }
    var current := parse(shoot.config.text);
    if current.None? { return false; }
    var items := listed.value;
    for i := 0 to |items|
      invariant forall k :: 0 <= k < i && Compared(shoot, items[k]) ==> !Collide(parse, shoot, items[k])
    {
      var other := items[i];
      if shoot.name == other.name { continue; }
      if shoot.profile != other.profile { continue; }
      if other.config.Absent? { continue; }
      if other.config.NodeCIDR? {
        var theirs := parse(other.config.text);
        if theirs.Some? {
          OverlapExactly(theirs.value, current.value);
          ShareSymmetric(theirs.value, current.value);
          if Overlap(theirs.value, current.value) {
            assert Collide(parse, shoot, other);
            return false;
          }
        }
      }
    }
    return true;
  }

  lemma ShareSymmetric(a: Block, b: Block)
    ensures ShareAddress(a, b) <==> ShareAddress(b, a)
  {
    if f, x :| In(a, f, x) && In(b, f, x) { assert ShareAddress(b, a); }
    if f, x :| In(b, f, x) && In(a, f, x) { assert ShareAddress(a, b); }
  }

  // ---- runs of admitted writes ----

  type Key = (string, string)

  type Garden = map<Key, Shoot>

  predicate WellKeyed(g: Garden) {
    forall k :: k in g ==> k == (g[k].namespace, g[k].name)
  }

  /** A create or update, or a deletion. */
  datatype Write = Put(shoot: Shoot) | Remove(key: Key)

  ghost predicate Accepted(parse: Parser, g: Garden, w: Write) {
    w.Put? ==> Admits(parse, w.shoot, set k | k in g :: g[k])
  }

  function Apply(g: Garden, w: Write): Garden {
    match w
    case Put(s) => g[(s.namespace, s.name) := s]
    case Remove(k) => g - {k}
  }

  /** Differently named shoots of one profile use disjoint node CIDRs. */
  ghost predicate Disjoint(parse: Parser, g: Garden) {
    forall k, l :: k in g && l in g && Compared(g[k], g[l]) ==> !Collide(parse, g[k], g[l])
  }

  lemma CollideSymmetric(parse: Parser, a: Shoot, b: Shoot)
    ensures Collide(parse, a, b) <==> Collide(parse, b, a)
  {
    if HasBlock(parse, a) && HasBlock(parse, b) { ShareSymmetric(BlockOf(parse, a), BlockOf(parse, b)); }
  }

  lemma WriteKeepsDisjoint(parse: Parser, g: Garden, w: Write)
    requires Disjoint(parse, g) && Accepted(parse, g, w)
    ensures Disjoint(parse, Apply(g, w))
  {
    if w.Put? {
      var h, key := Apply(g, w), (w.shoot.namespace, w.shoot.name);
      forall k, l | k in h && l in h && Compared(h[k], h[l]) ensures !Collide(parse, h[k], h[l]) {
        if k == key && l != key {
          assert h[l] == g[l] && g[l] in set x | x in g :: g[x];
        } else if k != key && l == key {
          assert h[k] == g[k] && g[k] in set x | x in g :: g[x];
          CollideSymmetric(parse, h[k], h[l]);
        }
      }
    }
  }

  ghost predicate AcceptedRun(parse: Parser, g: Garden, ws: seq<Write>)
    decreases |ws|
  {
    ws == [] || (Accepted(parse, g, ws[0]) && AcceptedRun(parse, Apply(g, ws[0]), ws[1..]))
  }

  function ApplyAll(g: Garden, ws: seq<Write>): Garden
    decreases |ws|
  {
    if ws == [] then g else ApplyAll(Apply(g, ws[0]), ws[1..])
  }

  /** Main result: every sequential run of admitted creates and updates, with any deletions, keeps
    * the node CIDRs of differently named shoots of one profile disjoint. */
  lemma {:induction false} RunKeepsDisjoint(parse: Parser, g: Garden, ws: seq<Write>)
    requires Disjoint(parse, g) && AcceptedRun(parse, g, ws)
    ensures Disjoint(parse, ApplyAll(g, ws))
    decreases |ws|
  {
    if ws != [] {
      WriteKeepsDisjoint(parse, g, ws[0]);
      RunKeepsDisjoint(parse, Apply(g, ws[0]), ws[1..]);
    }
  }

  /** No two shoots of one profile share an address, whatever their names. */
  ghost predicate FullyDisjoint(parse: Parser, g: Garden) {
    forall k, l :: k in g && l in g && k != l && g[k].profile == g[l].profile ==> !Collide(parse, g[k], g[l])
  }

  /** The loop compares bare names, so an accepted write keeps all shoots of a profile disjoint
    * exactly when no namesake in another namespace of that profile uses one of its addresses. */
  lemma NamesakesAreTheGap(parse: Parser, g: Garden, s: Shoot)
    requires WellKeyed(g) && FullyDisjoint(parse, g) && Accepted(parse, g, Put(s))
    ensures FullyDisjoint(parse, Apply(g, Put(s))) <==>
      forall k :: k in g && g[k].name == s.name && g[k].namespace != s.namespace && g[k].profile == s.profile ==> !Collide(parse, s, g[k])
  {
    var h, key := Apply(g, Put(s)), (s.namespace, s.name);
    if FullyDisjoint(parse, h) {
      forall k | k in g && g[k].name == s.name && g[k].namespace != s.namespace && g[k].profile == s.profile
        ensures !Collide(parse, s, g[k])
      {
        assert k != key && h[k] == g[k] && h[key] == s;
      }
    }
    if forall k :: k in g && g[k].name == s.name && g[k].namespace != s.namespace && g[k].profile == s.profile ==> !Collide(parse, s, g[k]) {
      forall k, l | k in h && l in h && k != l && h[k].profile == h[l].profile ensures !Collide(parse, h[k], h[l]) {
        var other := if k == key then l else k;
        if k == key || l == key {
          assert h[other] == g[other] && g[other] in set x | x in g :: g[x];
          CollideSymmetric(parse, s, h[other]);
        }
      }
    }
  }

  /** The gap is real: a namesake in another namespace with the very same node CIDR is accepted. */
  lemma NamesakesCollide() returns (parse: Parser, g: Garden, s: Shoot)
    ensures WellKeyed(g) && FullyDisjoint(parse, g) && Accepted(parse, g, Put(s)) && !FullyDisjoint(parse, Apply(g, Put(s)))
  {
    var block: Block := Parsed(V4, 0, 8);
    parse := (_: string) => Some(block);
    var other := Shoot("there", "n", "p", NodeCIDR("0.0.0.0/8"));
    s := other.(namespace := "here");
    g := map[("there", "n") := other];
    assert "here"[0] != "there"[0];
    BaseAndLastIn(block);
    assert ShareAddress(block, block) && Collide(parse, s, other);
    NamesakesAreTheGap(parse, g, s);
    assert g[("there", "n")].namespace != s.namespace;
  }
}
