/** Meter identifiers: spectator/id.h.

    An identifier is a name and a finite map of tags.  Equality compares the pointers, the hash is computed on first
    use and kept, and the With... operations build new identifiers and leave the old one as it was.
 */
module Ids {
  import opened Bytes
  import opened StringPool
  import opened Tags

  /** What an identifier stands for. */
  datatype Identity = Identity(name: StrRef, tags: map<StrRef, StrRef>)

  /** The hash code of a name and a sequence of tags. */
  function IdHash(pointerHash: StrRef -> nat, name: StrRef, s: seq<Tag>): nat {
    Xor(HashOf(pointerHash, s), pointerHash(name))
  }

  class Id {
    const name: StrRef
    const tags: TagSet
    var hash: nat

    constructor (name: StrRef, tags: TagSet)
      requires tags.Shape()
      modifies tags
      ensures this.name == name && hash == 0
      ensures this.tags.Shape() && this.tags.Contents() == old(tags.Contents())
      ensures fresh(this.tags) && fresh(this.tags.entries) && fresh(this.tags.Repr() - {old(tags.begin)})
    {
      this.name := name;
      this.tags := new TagSet.Move(tags);
      hash := 0;
    }

    /** With the tags of a temporary. */
    static method FromTemporary(name: StrRef, tags: TagSet, ghost refs: set<StrRef>) returns (id: Id)
      requires name in refs && tags.Valid(refs)
      modifies tags
      ensures fresh(id) && id.Valid(refs) && id.hash == 0
      ensures id.Value() == Identity(name, old(AsMap(tags.Contents())))
      ensures fresh(id.tags) && fresh(id.tags.Repr() - {old(tags.begin)})
    {
      id := new Id(name, tags);
    }

    constructor Copy(o: Id)
      requires o.tags.Shape()
      ensures name == o.name && hash == o.hash
      ensures tags.Shape() && tags.Contents() == o.tags.Contents() && fresh(tags.Repr())
    {
      name := o.name;
      tags := new TagSet.Copy(o.tags);
      hash := o.hash;
    }

    ghost predicate Valid(refs: set<StrRef>)
      reads this, tags, tags.begin
    {
      name in refs && tags.Valid(refs)
    }

    ghost function Value(): Identity
      requires tags.Shape()
      reads this, tags, tags.begin
    {
      Identity(name, AsMap(tags.Contents()))
    }

    ghost predicate HashKept(pointerHash: StrRef -> nat)
      requires tags.Shape()
      reads this, tags, tags.begin
    {
      hash == 0 || hash == IdHash(pointerHash, name, tags.Contents())
    }

    /** operator== */
    method Equals(rhs: Id, ghost refs: set<StrRef>) returns (eq: bool)
      requires Valid(refs) && rhs.Valid(refs)
      ensures eq <==> Value() == rhs.Value()
    {
      CanonicalOrder(refs, name, rhs.name);
      if !Same(name, rhs.name) { return false; }
      eq := tags.Equals(rhs.tags, refs);
    }

    /** Computes the hash code on the first call and keeps it. */
    method Hash(pointerHash: StrRef -> nat) returns (h: nat)
      requires tags.Shape() && HashKept(pointerHash)
      modifies this`hash
      ensures h == hash == IdHash(pointerHash, name, tags.Contents())
    {
      if hash == 0 {
        var t := tags.Hash(pointerHash);
        hash := Xor(t, pointerHash(name));
      }
      h := hash;
    }

    /** The constructor takes its tags by value: an lvalue is copied first. */
    static method FromCopy(name: StrRef, tags: TagSet, ghost refs: set<StrRef>) returns (id: Id)
      requires name in refs && tags.Valid(refs)
      ensures fresh(id) && id.Valid(refs) && fresh(id.tags) && fresh(id.tags.Repr()) && id.hash == 0
      ensures id.Value() == Identity(name, AsMap(tags.Contents()))
    {
      var argument := new TagSet.Copy(tags);
      id := new Id(name, argument);
    }

    /** A copy of the tags with one more. */
    static method CopyWith(tags: TagSet, key: StrRef, value: StrRef, ghost refs: set<StrRef>) returns (copy: TagSet)
      requires tags.Valid(refs) && key in refs && value in refs
      ensures fresh(copy) && fresh(copy.Repr()) && copy.Valid(refs)
      ensures AsMap(copy.Contents()) == AsMap(tags.Contents())[key := value]
    {
      copy := new TagSet.Copy(tags);
      copy.Insert(key, value, refs);
    }

    static method CopyWithAll(tags: TagSet, extra: TagSet, ghost refs: set<StrRef>) returns (copy: TagSet)
      requires tags.Valid(refs) && extra.Valid(refs)
      ensures fresh(copy) && fresh(copy.Repr()) && copy.Valid(refs)
      ensures AsMap(copy.Contents()) == AsMap(tags.Contents()) + AsMap(extra.Contents())
    {
      copy := new TagSet.Copy(tags);
      copy.AddAll(extra, refs);
    }

    method WithTag(key: StrRef, value: StrRef, ghost refs: set<StrRef>) returns (id: Id)
      requires Valid(refs) && key in refs && value in refs
      ensures fresh(id) && id.Valid(refs) && fresh(id.tags.Repr()) && id.hash == 0
      ensures id.Value() == Identity(name, AsMap(tags.Contents())[key := value])
    {
      var copy := CopyWith(tags, key, value, refs);
      id := FromCopy(name, copy, refs);
    }

    method WithTwoTags(k1: StrRef, v1: StrRef, k2: StrRef, v2: StrRef, ghost refs: set<StrRef>) returns (id: Id)
      requires Valid(refs) && k1 in refs && v1 in refs && k2 in refs && v2 in refs
      ensures fresh(id) && id.Valid(refs) && fresh(id.tags.Repr()) && id.hash == 0
      ensures id.Value() == Identity(name, AsMap(tags.Contents())[k1 := v1][k2 := v2])
    {
      var copy := CopyWith(tags, k1, v1, refs);
      copy.Insert(k2, v2, refs);
      id := FromCopy(name, copy, refs);
    }

    method WithTags(extra: TagSet, ghost refs: set<StrRef>) returns (id: Id)
      requires Valid(refs) && extra.Valid(refs)
      ensures fresh(id) && id.Valid(refs) && fresh(id.tags.Repr()) && id.hash == 0
      ensures id.Value() == Identity(name, AsMap(tags.Contents()) + AsMap(extra.Contents()))
    {
      var copy := CopyWithAll(tags, extra, refs);
      id := FromTemporary(name, copy, refs);
    }

    method WithStat(statistic: StrRef, stat: StrRef, ghost refs: set<StrRef>) returns (id: Id)
      requires Valid(refs) && statistic in refs && stat in refs
      ensures fresh(id) && id.Valid(refs) && fresh(id.tags.Repr()) && id.hash == 0
      ensures id.Value() == Identity(name, AsMap(tags.Contents())[statistic := stat])
    {
      id := WithTag(statistic, stat, refs);
    }

    /** A statistic that is already there stays. */
    method WithDefaultStat(statistic: StrRef, stat: StrRef, ghost refs: set<StrRef>) returns (id: Id)
      requires Valid(refs) && statistic in refs && stat in refs
      ensures fresh(id) && id.Valid(refs) && fresh(id.tags.Repr())
      ensures id.Value() == Identity(name, map[statistic := stat] + AsMap(tags.Contents()))
      ensures id.hash == 0 || (id.hash == hash && id.Value() == Value())
    {
      var found := tags.Has(statistic, refs);
      if found {
        id := new Id.Copy(this);
      } else {
        id := WithStat(statistic, stat, refs);
      }
    }
  }

  /** The hash code is that of the tags, exclusive-or the name's, digit by digit. */
  lemma IdHashBits(pointerHash: StrRef -> nat, name: StrRef, s: seq<Tag>, i: nat)
    ensures Bit(IdHash(pointerHash, name, s), i) == (Bit(HashOf(pointerHash, s), i) + Bit(pointerHash(name), i)) % 2
  {
    XorBits(HashOf(pointerHash, s), pointerHash(name), i);
  }

  /** Equal identifiers have equal hash codes, however their tags were put together. */
  lemma EqualIdsHashAlike(pointerHash: StrRef -> nat, a: Id, b: Id, refs: set<StrRef>)
    requires a.Valid(refs) && b.Valid(refs) && a.Value() == b.Value()
    ensures IdHash(pointerHash, a.name, a.tags.Contents()) == IdHash(pointerHash, b.name, b.tags.Contents())
  {
    EqualMapsHashAlike(pointerHash, a.tags.Contents(), b.tags.Contents(), refs);
  }

  /** The texts of the tags, in order. */
  function Texts(s: seq<Tag>): seq<(Option<Text>, Option<Text>)> {
    seq(|s|, i requires 0 <= i < |s| => (TextOf(s[i].key), TextOf(s[i].value)))
  }

  function TextOf(r: StrRef): Option<Text> {
    if r.Null? then None else Some(r.text)
  }

  /** Identifiers are equal exactly when their names and their tags read the same. */
  lemma EqualIdsReadAlike(a: Id, b: Id, refs: set<StrRef>)
    requires a.Valid(refs) && b.Valid(refs)
    ensures a.Value() == b.Value()
       <==> a.name.text == b.name.text && Texts(a.tags.Contents()) == Texts(b.tags.Contents())
  {
    var s, t := a.tags.Contents(), b.tags.Contents();
    CanonicalOrder(refs, a.name, b.name);
    MemcmpIsMapEquality(s, t, refs);
    if AsMap(s) == AsMap(t) {
      SortedUnique(s, t, refs);
    }
    if Texts(s) == Texts(t) {
      forall i | 0 <= i < |s| ensures s[i].key.text == t[i].key.text && s[i].value.text == t[i].value.text {
        assert Texts(s)[i] == Texts(t)[i];
      }
      assert SameBytes(s, t);
    }
  }
}
