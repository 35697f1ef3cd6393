/**
 The import-once EGLImage cache: four slots per thread, keyed by capture context and fb_id, checked
 against the frame's geometry and the inode of the dma-buf behind the supplied descriptor.
 */
module EglImageCache {
  import opened Words
  import opened Geometry
  import opened GlErrors

  const SLOTS := 4

  /** Everything a cached import must agree on besides its key. */
  datatype Layout = Layout(width: u32, height: u32, stride: u32, fourcc: u32, modifier: u64,
                           planes: int, offsets: seq<u32>, pitches: seq<u32>)

  datatype Slot = Empty | Cached(owner: nat, fb: u32, layout: Layout, inode: nat, image: nat, texture: nat)
  {
    predicate Keyed(o: nat, f: u32) { Cached? && owner == o && fb == f }
  }

  const IN_FLIGHT := -1

  /** A live EGLImage: the buffer it pins and samples, and the slot that owns it. */
  datatype Image = Image(buffer: nat, holder: int)

  ghost predicate BuffersSound(images: map<nat, Image>, buffers: map<nat, nat>) {
    && (forall b | b in buffers :: buffers[b] != 0)
    && (forall b, c | b in buffers && c in buffers && buffers[b] == buffers[c] :: b == c)
    && (forall i | i in images :: images[i].buffer in buffers)
  }

  /**
   The driver and kernel as ledgers.  `buffers` maps every live buffer to its inode; an inode is never
   zero and belongs to one live buffer, and a buffer stays live as long as an image pins it.
   */
  class Driver {
    var images: map<nat, Image>
    var textures: map<nat, int>
    var buffers: map<nat, nat>
    const gl: Gl

    constructor ()
      ensures images == map[] && textures == map[] && Sound() && fresh(gl)
    {
      gl := new Gl();
      images, textures, buffers := map[], map[], map[];
    }

    ghost predicate Sound()
      reads this
    {
      BuffersSound(images, buffers)
    }

    /** Between calls the compositor allocates and frees buffers, but never one an image pins. */
    method Compositor()
      requires Sound()
      modifies this`buffers
      ensures Sound()
      ensures forall i | i in images ::
                images[i].buffer in old(buffers) && buffers[images[i].buffer] == old(buffers)[images[i].buffer]
    {
      var gone: set<nat>, b: nat, inode: nat := *, *, *;
      var pinned := set i | i in images :: images[i].buffer;
      buffers := buffers - (gone - pinned);
      if b !in buffers && inode != 0 && inode !in buffers.Values {
        buffers := buffers[b := inode];
      }
    }

    /** eglCreateImage, with its retries: a new image pinning the buffer, or none. */
    method Import(buffer: nat) returns (ok: bool, image: nat)
      requires Sound() && buffer in buffers
      modifies this`images, gl`faults
      ensures Sound()
      ensures ok ==> image !in old(images) && images == old(images)[image := Image(buffer, IN_FLIGHT)]
      ensures !ok ==> images == old(images)
      ensures gl.faults == old(gl.faults) + if ok then 0 else 1
    {
      ok, image := *, *;
      if ok && image in images { ok := false; }
      if !ok { gl.faults := gl.faults + 1; }
      if ok { images := images[image := Image(buffer, IN_FLIGHT)]; }
    }

    method DestroyImage(image: nat)
      requires Sound() && image in images
      modifies this`images
      ensures Sound() && images == old(images) - {image}
    {
      images := images - {image};
    }

    method DeleteTexture(texture: nat)
      requires texture in textures
      modifies this`textures
      ensures textures == old(textures) - {texture}
    {
      textures := textures - {texture};
    }

    /** glGenTextures and the image bind: a GL error deletes the texture again. */
    method ExternalTexture() returns (ok: bool, texture: nat)
      modifies this`textures, gl`error, gl`faults
      ensures ok ==> texture !in old(textures) && textures == old(textures)[texture := IN_FLIGHT]
      ensures !ok ==> textures == old(textures)
      ensures gl.faults >= old(gl.faults) && (gl.faults == old(gl.faults) && gl.error ==> old(gl.error))
      ensures gl.faults == old(gl.faults) && !old(gl.error) ==> ok
    {
      texture := *;
      gl.Work();
      var raised := gl.Drain();
      ok := !raised && texture !in textures;
      if ok { textures := textures[texture := IN_FLIGHT]; } else { gl.faults := gl.faults + 1; }
    }

    /** Ghost bookkeeping: the slot takes over what was in flight. */
    method Hand(image: nat, texture: nat, slot: int)
      requires Sound() && image in images && texture in textures
      modifies this`images, this`textures
      ensures Sound()
      ensures images == old(images)[image := Image(old(images)[image].buffer, slot)]
      ensures textures == old(textures)[texture := slot]
    {
      images := images[image := Image(images[image].buffer, slot)];
      textures := textures[texture := slot];
    }
  }

  // ---- the cache invariant, on values ----

  ghost predicate SlotSound(s: Slot, i: int, images: map<nat, Image>, textures: map<nat, int>, buffers: map<nat, nat>) {
    s.Cached? ==>
      && s.fb != 0
      && s.image in images && images[s.image].holder == i && images[s.image].buffer in buffers
      && s.texture in textures && textures[s.texture] == i
      && (s.inode == 0 || s.inode == buffers[images[s.image].buffer])
  }

  ghost predicate SlotsSound(slots: seq<Slot>, images: map<nat, Image>, textures: map<nat, int>, buffers: map<nat,
                             nat>) {
    forall i | 0 <= i < |slots| :: SlotSound(slots[i], i, images, textures, buffers)
  }

  ghost predicate UniqueKeys(slots: seq<Slot>) {
    forall i, j | 0 <= i < |slots| && 0 <= j < |slots| && i != j && slots[i].Cached? ::
        !slots[j].Keyed(slots[i].owner, slots[i].fb)
  }

  predicate Holds(slots: seq<Slot>, i: int) { 0 <= i < |slots| && slots[i].Cached? }

  /** Every live image but one belongs to the slot that names it. */
  ghost predicate ImagesOwned(slots: seq<Slot>, images: map<nat, Image>, but: int) {
    forall i | i in images && i != but :: Holds(slots, images[i].holder) && slots[images[i].holder].image == i
  }

  ghost predicate TexturesOwned(slots: seq<Slot>, textures: map<nat, int>, but: int) {
    forall t | t in textures && t != but :: Holds(slots, textures[t]) && slots[textures[t]].texture == t
  }

  lemma KeyIsUnique(slots: seq<Slot>, k: nat, owner: nat, fb: u32)
    requires UniqueKeys(slots) && k < |slots| && slots[k].Keyed(owner, fb)
    ensures forall i | 0 <= i < |slots| && slots[i].Keyed(owner, fb) :: i == k
  {}

  lemma SlotHolds(slots: seq<Slot>, images: map<nat, Image>, textures: map<nat, int>, buffers: map<nat, nat>, i: nat)
    requires SlotsSound(slots, images, textures, buffers) && i < |slots|
    ensures SlotSound(slots[i], i, images, textures, buffers)
  {}

  /** The pair in flight, if any, belongs to no slot. */
  ghost predicate Unheld(images: map<nat, Image>, textures: map<nat, int>, image: int, texture: int) {
    && (image in images ==> images[image].holder == IN_FLIGHT)
    && (texture in textures ==> textures[texture] == IN_FLIGHT)
  }

  lemma ReleaseKeeps(slots: seq<Slot>, images: map<nat, Image>, textures: map<nat, int>, buffers: map<nat, nat>, i: nat,
                     image: int, texture: int)
    requires SlotsSound(slots, images, textures, buffers) && UniqueKeys(slots) && i < |slots|
    requires ImagesOwned(slots, images, image) && TexturesOwned(slots, textures, texture)
    requires Unheld(images, textures, image, texture)
    ensures var images' := images - if slots[i].Cached? then {slots[i].image} else {};
            var textures' := textures - if slots[i].Cached? then {slots[i].texture} else {};
            var slots' := slots[i := Empty];
            && SlotsSound(slots', images', textures', buffers) && UniqueKeys(slots')
            && ImagesOwned(slots', images', image) && TexturesOwned(slots', textures', texture)
            && Unheld(images', textures', image, texture)
            && (slots[i].Cached? ==> slots[i].image != image && slots[i].texture != texture)
  {
    assert SlotSound(slots[i], i, images, textures, buffers);
    forall j | 0 <= j < |slots| && j != i && slots[j].Cached? && slots[i].Cached?
      ensures slots[j].image != slots[i].image && slots[j].texture != slots[i].texture
    {
      assert SlotSound(slots[i], i, images, textures, buffers) && SlotSound(slots[j], j, images, textures, buffers);
    }
  }

  lemma AdoptKeeps(slots: seq<Slot>, images: map<nat, Image>, textures: map<nat, int>, buffers: map<nat, nat>,
                   i: nat, s: Slot, buffer: nat)
    requires SlotsSound(slots, images, textures, buffers) && UniqueKeys(slots) && i < |slots| && slots[i].Empty?
    requires s.Cached? && s.fb != 0 && s.image in images && s.texture in textures && buffer in buffers
    requires images[s.image] == Image(buffer, IN_FLIGHT) && textures[s.texture] == IN_FLIGHT
    requires ImagesOwned(slots, images, s.image) && TexturesOwned(slots, textures, s.texture)
    requires forall j | 0 <= j < |slots| :: !slots[j].Keyed(s.owner, s.fb)
    requires s.inode == 0 || s.inode == buffers[buffer]
    ensures var images' := images[s.image := Image(buffer, i)];
            var textures' := textures[s.texture := i];
            var slots' := slots[i := s];
            && SlotsSound(slots', images', textures', buffers) && UniqueKeys(slots')
            && ImagesOwned(slots', images', IN_FLIGHT) && TexturesOwned(slots', textures', IN_FLIGHT)
  {
    forall j | 0 <= j < |slots| && j != i && slots[j].Cached?
      ensures slots[j].image != s.image && slots[j].texture != s.texture
    {
      assert SlotSound(slots[j], j, images, textures, buffers);
    }
  }

  lemma {:induction false} SubsetSize(a: set<nat>, b: set<nat>)
    requires a <= b
    ensures |a| <= |b|
    decreases |b|
  {
    if x :| x in a { SubsetSize(a - {x}, b - {x}); }
  }

  /** Naming one thing per cached slot names at most as many things as there are slots. */
  lemma {:induction false} HeldSize(slots: seq<Slot>, name: Slot -> nat, named: set<nat>)
    requires named == set i | 0 <= i < |slots| && slots[i].Cached? :: name(slots[i])
    ensures |named| <= |slots|
  {
    if slots != [] {
      var n := |slots| - 1;
      var front := slots[..n];
      var rest := set i | 0 <= i < |front| && front[i].Cached? :: name(front[i]);
      HeldSize(front, name, rest);
      var last := if slots[n].Cached? then {name(slots[n])} else {};
      forall x | x in named ensures x in rest + last {
        var i :| 0 <= i < |slots| && slots[i].Cached? && name(slots[i]) == x;
        if i < n { assert front[i] == slots[i]; }
      }
      SubsetSize(named, rest + last);
    }
  }

  lemma FewImages(slots: seq<Slot>, images: map<nat, Image>)
    requires ImagesOwned(slots, images, IN_FLIGHT)
    ensures |images| <= |slots|
  {
    var name := (s: Slot) => if s.Cached? then s.image else 0;
    var named := set i | 0 <= i < |slots| && slots[i].Cached? :: name(slots[i]);
    forall i | i in images ensures i in named {
      assert Holds(slots, images[i].holder) && name(slots[images[i].holder]) == i;
    }
    HeldSize(slots, name, named);
    SubsetSize(images.Keys, named);
  }

  lemma FewTextures(slots: seq<Slot>, textures: map<nat, int>)
    requires TexturesOwned(slots, textures, IN_FLIGHT)
    ensures |textures| <= |slots|
  {
    var name := (s: Slot) => if s.Cached? then s.texture else 0;
    var named := set i | 0 <= i < |slots| && slots[i].Cached? :: name(slots[i]);
    forall t | t in textures ensures t in named {
      assert Holds(slots, textures[t]) && name(slots[textures[t]]) == t;
    }
    HeldSize(slots, name, named);
    SubsetSize(textures.Keys, named);
  }

  /** What a convert will sample. */
  datatype Source = Source(image: nat, texture: nat, slot: int)

  class ImageCache {
    const d: Driver
    var slots: seq<Slot>
    var nextEvict: nat
    var disabled: bool

    constructor (d: Driver, disabled: bool)
      requires d.Sound() && d.images == map[] && d.textures == map[]
      ensures this.d == d && Valid() && Owned() && forall i | 0 <= i < SLOTS :: slots[i].Empty?
    {
      this.d := d;
      slots, nextEvict := [Empty, Empty, Empty, Empty], 0;
      this.disabled := disabled;
    }

    /** Slots own what they hold, keys are unique, and a recorded inode is the pinned buffer's own. */
    ghost predicate Valid()
      reads this, d
    {
      && |slots| == SLOTS && d.Sound()
      && SlotsSound(slots, d.images, d.textures, d.buffers) && UniqueKeys(slots)
    }

    /** Only the pair in flight, if any, is not some slot's. */
    ghost predicate OwnedBut(image: int, texture: int)
      reads this, d
    {
      && ImagesOwned(slots, d.images, image) && TexturesOwned(slots, d.textures, texture)
      && Unheld(d.images, d.textures, image, texture)
    }

    /** Every live image and texture is some non-empty slot's. */
    ghost predicate Owned()
      reads this, d
    {
      OwnedBut(IN_FLIGHT, IN_FLIGHT)
    }

    /** Release one slot; safe on an empty one. */
    method ReleaseSlot(i: nat, ghost image: int := IN_FLIGHT, ghost texture: int := IN_FLIGHT)
      requires Valid() && OwnedBut(image, texture) && i < SLOTS
      modifies this`slots, d`images, d`textures
      ensures Valid() && OwnedBut(image, texture) && slots == old(slots)[i := Empty]
      ensures d.images == old(d.images) - (if old(slots)[i].Cached? then {old(slots)[i].image} else {})
      ensures d.textures == old(d.textures) - (if old(slots)[i].Cached? then {old(slots)[i].texture} else {})
      ensures old(slots)[i].Cached? ==> old(slots)[i].image != image && old(slots)[i].texture != texture
    {
      hide SlotsSound, UniqueKeys, ImagesOwned, TexturesOwned, BuffersSound, Unheld;
      SlotHolds(slots, d.images, d.textures, d.buffers, i);
      ReleaseKeeps(slots, d.images, d.textures, d.buffers, i, image, texture);
      if slots[i].Cached? {
        d.DeleteTexture(slots[i].texture);
        d.DestroyImage(slots[i].image);
      } else {
        assert d.images - {} == d.images && d.textures - {} == d.textures;
      }
      slots := slots[i := Empty];
    }

    /** egl_cleanup's part: every slot released. */
    method ReleaseAll()
      requires Valid() && Owned()
      modifies this`slots, this`nextEvict, d`images, d`textures
      ensures Valid() && Owned() && d.images == map[] && d.textures == map[]
      ensures forall i | 0 <= i < SLOTS :: slots[i].Empty?
    {
      var i := 0;
      while i < SLOTS
        invariant 0 <= i <= SLOTS && Valid() && Owned()
        invariant forall j | 0 <= j < i :: slots[j].Empty?
      {
        ReleaseSlot(i);
        i := i + 1;
      }
      nextEvict := 0;
      assert d.images.Keys == {} && d.textures.Keys == {};
    }

    lemma EmptySlotsHoldNothing()
      requires Owned() && forall i | 0 <= i < |slots| :: slots[i].Empty?
      ensures d.images == map[] && d.textures == map[]
    {
      assert (forall i :: i !in d.images) && (forall t :: t !in d.textures);
    }

    /** The cached import still stands for this frame. */
    predicate Matches(s: Slot, layout: Layout, inode: nat)
    {
      s.Cached? && s.layout == layout && (inode == 0 || s.inode == 0 || s.inode == inode)
    }

    /** One step of the sweep: a stale entry under the same key is dropped. */
    method Visit(i: nat, owner: nat, fb: u32, layout: Layout, inode: nat) returns (hit: bool)
      requires Valid() && Owned() && i < SLOTS
      modifies this`slots, d`images, d`textures
      ensures Valid() && Owned()
      ensures hit <==> old(slots)[i].Keyed(owner, fb) && Matches(old(slots)[i], layout, inode)
      ensures hit || !old(slots)[i].Keyed(owner, fb) ==>
                slots == old(slots) && d.images == old(d.images) && d.textures == old(d.textures)
      ensures !hit && old(slots)[i].Keyed(owner, fb) ==>
                slots == old(slots)[i := Empty] && d.images == old(d.images) - {old(slots)[i].image}
    {
      hide SlotsSound, UniqueKeys, ImagesOwned, TexturesOwned, BuffersSound;
      hit := false;
      if slots[i].Cached? && slots[i].fb == fb && slots[i].owner == owner {
        if Matches(slots[i], layout, inode) {
          return true;
        }
        ReleaseSlot(i);
      }
    }

    /**
     The lookup sweep: the slot that stands for this frame, or none; a slot under the same key that
     does not is dropped on the way.
     */
    method Lookup(owner: nat, fb: u32, layout: Layout, inode: nat) returns (hit: int, free: int)
      requires Valid() && Owned()
      modifies this`slots, d`images, d`textures
      ensures Valid() && Owned()
      ensures hit < SLOTS && free < SLOTS
      ensures hit >= 0 ==> slots[hit].Keyed(owner, fb) && Matches(slots[hit], layout, inode)
      ensures hit >= 0 ==> slots == old(slots) && d.images == old(d.images) && d.textures == old(d.textures)
      ensures hit < 0 ==> forall i | 0 <= i < SLOTS :: !slots[i].Keyed(owner, fb)
      ensures hit < 0 ==>
                forall i | 0 <= i < SLOTS :: !(old(slots)[i].Keyed(owner, fb) && Matches(old(slots)[i], layout, inode))
      ensures hit < 0 ==> forall i | 0 <= i < SLOTS && !old(slots)[i].Keyed(owner, fb) :: slots[i] == old(slots)[i]
      ensures forall i | 0 <= i < SLOTS :: slots[i] == old(slots)[i] || slots[i].Empty?
      ensures free >= 0 ==> slots[free].Empty?
      ensures hit < 0 && free < 0 ==> forall i | 0 <= i < SLOTS :: slots[i].Cached?
    {
      hide SlotsSound, ImagesOwned, TexturesOwned, BuffersSound;
      hit, free := -1, -1;
      ghost var dropped := false;
      var i := 0;
      while i < SLOTS
        invariant 0 <= i <= SLOTS && Valid() && Owned() && hit == -1
        invariant !dropped ==> slots == old(slots) && d.images == old(d.images) && d.textures == old(d.textures)
        invariant dropped ==> exists k :: 0 <= k < i && old(slots)[k].Keyed(owner, fb)
        invariant forall j | 0 <= j < i :: !slots[j].Keyed(owner, fb)
        invariant forall j | 0 <= j < i :: !(old(slots)[j].Keyed(owner, fb) && Matches(old(slots)[j], layout, inode))
        invariant forall j | 0 <= j < SLOTS && !old(slots)[j].Keyed(owner, fb) :: slots[j] == old(slots)[j]
        invariant forall j | i <= j < SLOTS :: slots[j] == old(slots)[j]
        invariant forall j | 0 <= j < i :: slots[j] == old(slots)[j] || slots[j].Empty?
        invariant -1 <= free < i && (free >= 0 ==> slots[free].Empty?)
        invariant free < 0 ==> forall j | 0 <= j < i :: slots[j].Cached?
      {
        var was := slots[i];
        var found := Visit(i, owner, fb, layout, inode);
        if found {
          hit := i;
          break;
        }
        if was.Keyed(owner, fb) { dropped := true; }
        if slots[i].Empty? && free < 0 { free := i; }
        i := i + 1;
      }
    }

    /** The cache takes part in this convert. */
    predicate Used(fb: u32)
      reads this
    {
      fb != 0 && !disabled
    }

    /** Every inode the check would compare is known. */
    ghost predicate IdentityKnown(owner: nat, fb: u32, inode: nat)
      reads this
    {
      Used(fb) ==> inode != 0 && forall i | 0 <= i < |slots| && slots[i].Keyed(owner, fb) :: slots[i].inode != 0
    }

    /** Some cached import stands for this frame. */
    ghost predicate Hits(owner: nat, fb: u32, layout: Layout, inode: nat)
      reads this
    {
      Used(fb) && exists i | 0 <= i < |slots| :: slots[i].Keyed(owner, fb) && Matches(slots[i], layout, inode)
    }

    /** In so many words. */
    lemma HitsExactly(owner: nat, fb: u32, layout: Layout, inode: nat)
      ensures Hits(owner, fb, layout, inode) <==>
              && fb != 0 && !disabled
              && exists i | 0 <= i < |slots| ::
                   && slots[i].Cached? && slots[i].owner == owner && slots[i].fb == fb && slots[i].layout == layout
                   && (inode == 0 || slots[i].inode == 0 || slots[i].inode == inode)
    {}

    /** A cached import of another buffer stands for this frame: an inode is unknown on one side. */
    ghost predicate StandIn(owner: nat, fd: int, fb: u32, layout: Layout, inode: nat)
      reads this, d
    {
      && Used(fb)
      && exists i | 0 <= i < |slots| :: slots[i].Keyed(owner, fb) && Matches(slots[i], layout, inode) &&
           slots[i].image in d.images && d.images[slots[i].image].buffer != fd
    }

    /**
     With both inodes known the guard is exact: an inode belongs to one live buffer and a cached image
     keeps its buffer live, so a cached import of another buffer (a recycled fb_id) never stands in.
     */
    lemma KnownIdentityIsExact(owner: nat, fd: nat, fb: u32, layout: Layout, inode: nat)
      requires Valid() && fd in d.buffers && inode == d.buffers[fd] && IdentityKnown(owner, fb, inode)
      ensures !StandIn(owner, fd, fb, layout, inode)
    {}

    /** With no import in flight, no more images or textures are live than there are slots. */
    lemma AtMostSlots()
      requires Valid() && Owned()
      ensures |d.images| <= SLOTS && |d.textures| <= SLOTS
    {
      hide ImagesOwned, TexturesOwned, SlotsSound, UniqueKeys;
      FewImages(slots, d.images);
      FewTextures(slots, d.textures);
    }

    /** Import the buffer and wrap it in a texture; on failure nothing is left behind. */
    method ImportFresh(buffer: nat) returns (ret: int, image: nat, texture: nat)
      requires Valid() && Owned() && buffer in d.buffers
      modifies d`images, d`textures, d.gl`error, d.gl`faults
      ensures Valid() && d.buffers == old(d.buffers)
      ensures ret != 0 ==> Owned() && d.images == old(d.images) && d.textures == old(d.textures)
      ensures ret == 0 ==> image !in old(d.images) && d.images == old(d.images)[image := Image(buffer, IN_FLIGHT)]
      ensures ret == 0 ==> texture !in old(d.textures) && d.textures == old(d.textures)[texture := IN_FLIGHT]
      ensures ret == 0 ==> OwnedBut(image, texture)
      ensures d.gl.faults >= old(d.gl.faults) && (d.gl.faults == old(d.gl.faults) && d.gl.error ==> old(d.gl.error))
      ensures d.gl.faults == old(d.gl.faults) && !old(d.gl.error) ==> ret == 0
    {
      hide UniqueKeys, BuffersSound;
      var ok;
      texture := 0;
      ok, image := d.Import(buffer);
      if !ok {
        return EIO, image, texture;
      }
      ok, texture := d.ExternalTexture();
      if !ok {
        d.DestroyImage(image);
        assert d.images == old(d.images);
        return EIO, image, texture;
      }
      ret := 0;
    }

    /** The fresh import moves into slot i. */
    method Adopt(i: nat, s: Slot, buffer: nat)
      requires Valid() && i < SLOTS && slots[i].Empty? && s.Cached? && s.fb != 0
      requires s.image in d.images && s.texture in d.textures && OwnedBut(s.image, s.texture)
      requires d.images[s.image] == Image(buffer, IN_FLIGHT) && d.textures[s.texture] == IN_FLIGHT
      requires forall j | 0 <= j < SLOTS :: !slots[j].Keyed(s.owner, s.fb)
      requires buffer in d.buffers && (s.inode == 0 || s.inode == d.buffers[buffer])
      modifies this`slots, d`images, d`textures
      ensures Valid() && Owned() && slots == old(slots)[i := s]
      ensures d.images == old(d.images)[s.image := Image(buffer, i)] && d.textures == old(d.textures)[s.texture := i]
    {
      hide BuffersSound;
      AdoptKeeps(slots, d.images, d.textures, d.buffers, i, s, buffer);
      d.Hand(s.image, s.texture, i);
      slots := slots[i := s];
    }

    /** The slot a fresh import goes to: a free one, else the next in turn, released first. */
    method ChooseSlot(free: int, ghost image: int, ghost texture: int) returns (i: nat)
      requires Valid() && OwnedBut(image, texture) && free < SLOTS && (free >= 0 ==> slots[free].Empty?)
      modifies this`slots, this`nextEvict, d`images, d`textures
      ensures Valid() && OwnedBut(image, texture) && i < SLOTS && slots[i].Empty? && slots == old(slots)[i := Empty]
      ensures image in old(d.images) ==> image in d.images && d.images[image] == old(d.images)[image]
      ensures texture in old(d.textures) ==> texture in d.textures && d.textures[texture] == old(d.textures)[texture]
    {
      hide SlotsSound, UniqueKeys, ImagesOwned, TexturesOwned, BuffersSound, Unheld;
      if free >= 0 {
        i := free;
        assert slots == slots[i := Empty];
      } else {
        i := nextEvict % SLOTS;
        nextEvict := nextEvict + 1;
        ReleaseSlot(i, image, texture);
      }
    }

    /** An acquired source: in its slot, or in flight for this call alone. */
    ghost predicate Pending(src: Source)
      reads this, d
    {
      && Valid() && src.image in d.images && src.texture in d.textures
      && (src.slot >= 0 ==> Owned())
      && (src.slot < 0 ==> OwnedBut(src.image, src.texture) && d.images[src.image].holder == IN_FLIGHT)
      && (src.slot < 0 ==> d.textures[src.texture] == IN_FLIGHT)
    }

    /**
     The image a convert samples: the cached one, or a fresh import that a slot adopts (or that lives
     for this call alone when the cache is not used).  fd is the buffer behind the supplied descriptor,
     -1 for none; inode is what fstat said about it, 0 when unknown.
     */
    method Acquire(owner: nat, fd: int, fb: u32, layout: Layout, inode: nat) returns (ret: int, src: Source)
      requires Valid() && Owned()
      requires fd >= 0 ==> fd in d.buffers
      requires inode == 0 || (fd >= 0 && inode == d.buffers[fd])
      modifies this`slots, this`nextEvict, d`images, d`textures, d.gl`error, d.gl`faults
      ensures ret != 0 ==> Valid() && Owned()
      ensures ret == 0 ==> Pending(src)
      ensures ret == 0 && src.slot >= 0 ==> src.slot < SLOTS && slots[src.slot].Keyed(owner, fb)
      ensures ret == 0 && src.slot >= 0 ==> slots[src.slot].image == src.image && slots[src.slot].texture == src.texture
      ensures ret == 0 && src.slot >= 0 ==> slots[src.slot].layout == layout
      ensures ret == 0 && src.slot < 0 ==> !Used(fb)
      ensures forall i | 0 <= i < |slots| ::
          slots[i].Empty? || (i < |old(slots)| && slots[i] == old(slots)[i]) || (fd >= 0 && slots[i].inode == inode)
      // the buffer sampled is the one supplied, unless a stand-in of unknown identity was cached
      ensures ret == 0 && fd >= 0 ==>
                (d.images[src.image].buffer == fd <==> !old(StandIn(owner, fd, fb, layout, inode)))
      // without a descriptor only a cached import can serve
      ensures fd < 0 && !old(Hits(owner, fb, layout, inode)) ==> ret != 0
      ensures d.gl.faults >= old(d.gl.faults) && (d.gl.faults == old(d.gl.faults) && d.gl.error ==> old(d.gl.error))
      // with one nothing is imported, and nothing released
      ensures old(Hits(owner, fb, layout, inode)) ==>
                && ret == 0 && src.slot >= 0 && slots == old(slots)
                && d.images == old(d.images) && d.textures == old(d.textures)
      // and it fails for no other reason than that or a driver step
      ensures ret != 0 && d.gl.faults == old(d.gl.faults) && !old(d.gl.error) ==>
                fd < 0 && !old(Hits(owner, fb, layout, inode)) && ret == EINVAL
    {
      hide SlotsSound, ImagesOwned, TexturesOwned, BuffersSound, Unheld, UniqueKeys;
      src := Source(0, 0, -1);
      var hit, free := -1, -1;
      var used := fb != 0 && !disabled;
      if used {
        hit, free := Lookup(owner, fb, layout, inode);
      }
      if hit >= 0 {
        KeyIsUnique(slots, hit, owner, fb);
        SlotHolds(slots, d.images, d.textures, d.buffers, hit);
        return 0, Source(slots[hit].image, slots[hit].texture, hit);
      }
      if fd < 0 {
        return EINVAL, src;
      }
      var image, texture;
      ret, image, texture := ImportFresh(fd);
      if ret != 0 {
        return;
      }
      src := Source(image, texture, -1);
      if used {
        var i := ChooseSlot(free, image, texture);
        Adopt(i, Cached(owner, fb, layout, inode, image, texture), fd);
        src := Source(image, texture, i);
      }
    }

    /** The end of a convert: an uncached import does not outlive the call. */
    method Finish(src: Source)
      requires Pending(src)
      modifies d`images, d`textures
      ensures Valid() && Owned()
      ensures d.images == old(d.images) - (if src.slot < 0 then {src.image} else {})
      ensures d.textures == old(d.textures) - (if src.slot < 0 then {src.texture} else {})
    {
      hide UniqueKeys, BuffersSound;
      if src.slot < 0 {
        d.DeleteTexture(src.texture);
        d.DestroyImage(src.image);
      } else {
        assert d.images == d.images - {} && d.textures == d.textures - {};
      }
    }
  }
}
