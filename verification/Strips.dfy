/** opc_put_pixel_list (opc_client.c:204-229): the permutation of a frame into strip order. */
module Strips {
  import opened LinkedList
  import opened Sets
  import opened Pixels

  /** The position of strip `c` in the organised frame. */
  function Offset(c: nat): nat
    requires c <= NUM_STRIPS
  {
    if c == 0 then 0 else Offset(c - 1) + STRIP_SIZE[c - 1]
  }

  predicate IsSlot(c: int, s: int) {
    0 <= c < NUM_STRIPS && 0 <= s < STRIP_SIZE[c]
  }

  lemma {:induction false} OffsetMonotone(c: nat, d: nat)
    requires c < d <= NUM_STRIPS
    ensures Offset(c) + STRIP_SIZE[c] <= Offset(d)
    decreases d
  {
    if c + 1 < d {
      OffsetMonotone(c, d - 1);
    }
  }

  lemma TotalSize()
    ensures seq(NUM_STRIPS + 1, c requires 0 <= c <= NUM_STRIPS => Offset(c))
         == [0, 63, 123, 187, 231, 291, 355, 407, 471]
    ensures Offset(NUM_STRIPS) == NUM_PIXELS
  {
    assert Offset(1) == 63;
    assert Offset(2) == 123;
    assert Offset(3) == 187;
    assert Offset(4) == 231;
    assert Offset(5) == 291;
    assert Offset(6) == 355;
    assert Offset(7) == 407;
    assert Offset(8) == 471;
  }

  lemma SlotInside(c: nat, s: nat)
    requires IsSlot(c, s)
    ensures Offset(c) + s < NUM_PIXELS && s < MAX_STRIP_SIZE
  {
    TotalSize();
    OffsetMonotone(c, NUM_STRIPS);
  }

  /** Different slots have different places in the frame. */
  lemma SlotsDisjoint(c: nat, s: nat, d: nat, r: nat)
    requires IsSlot(c, s) && IsSlot(d, r) && (c != d || s != r)
    ensures Offset(c) + s != Offset(d) + r
  {
    if c < d {
      OffsetMonotone(c, d);
    } else if d < c {
      OffsetMonotone(d, c);
    }
  }

  /** Every place in the frame is a slot. */
  lemma {:induction false} SlotAt(k: nat, c: nat) returns (d: nat, s: nat)
    requires c <= NUM_STRIPS && k < Offset(c)
    ensures IsSlot(d, s) && Offset(d) + s == k
  {
    if k >= Offset(c - 1) {
      d, s := c - 1, k - Offset(c - 1);
    } else {
      d, s := SlotAt(k, c - 1);
    }
  }

  /** The last LED wired to a slot, or -1. */
  function WiredTo(infos: seq<PixelInfo>, c: int, s: int): (p: int)
    ensures -1 <= p < |infos|
    ensures p >= 0 ==> infos[p].channel == c && infos[p].num == s
    ensures forall i :: p < i < |infos| ==> infos[i].channel != c || infos[i].num != s
  {
    LastMatch(infos, (pi: PixelInfo) => pi.channel == c && pi.num == s)
  }

  /** All wiring stays inside the strip grid: elsewhere the code writes outside its block. */
  predicate WiringInside(infos: seq<PixelInfo>) {
    forall i :: 0 <= i < |infos| ==> 0 <= infos[i].channel < NUM_STRIPS && 0 <= infos[i].num < MAX_STRIP_SIZE
  }

  /** The first loop: the colour of each LED goes to its place on its strip. */
  method FillChannels(grid: Grid, pixels: array<Pixel>, info: List<PixelInfo>)
    requires info.Valid() && WiringInside(info.Values()) && |info.Values()| <= pixels.Length
    requires grid.Valid() && grid.starts.Length == NUM_STRIPS && grid.rows == MAX_STRIP_SIZE && grid.cells != pixels
    modifies grid.cells
    ensures grid.Valid()
    ensures forall c: nat, s: nat :: c < NUM_STRIPS && s < MAX_STRIP_SIZE && WiredTo(info.Values(), c, s) >= 0 ==>
              grid.Cell(c, s) == pixels[WiredTo(info.Values(), c, s)]
  {
    hide WiredTo;
    ghost var infos := info.Values();
    var pos := 0;
    var curr := info.head;
    while curr != null
      invariant 0 <= pos <= |infos| && curr == info.At(pos)
      invariant info.Valid() && info.Values() == infos && grid.Valid()
      invariant forall c: nat, s: nat :: c < NUM_STRIPS && s < MAX_STRIP_SIZE && WiredTo(infos[..pos], c, s) >= 0 ==>
                  grid.Cell(c, s) == pixels[WiredTo(infos[..pos], c, s)]
      decreases |infos| - pos
    {
      var pi := curr.value;
      assert pi == infos[pos];
      grid.Set(pi.channel, pi.num, pixels[pos]);
      forall c: nat, s: nat
        ensures WiredTo(infos[..pos + 1], c, s)
             == if pi.channel == c && pi.num == s then pos else WiredTo(infos[..pos], c, s)
      {
        WiredStep(infos, pos, c, s);
      }
      pos := pos + 1;
      curr := curr.next;
    }
    assert infos[..pos] == infos;
  }

  lemma WiredStep(infos: seq<PixelInfo>, pos: nat, c: int, s: int)
    requires pos < |infos|
    ensures WiredTo(infos[..pos + 1], c, s)
         == if infos[pos].channel == c && infos[pos].num == s then pos else WiredTo(infos[..pos], c, s)
  {
    LastMatchStep(infos[..pos], infos[pos], (pi: PixelInfo) => pi.channel == c && pi.num == s);
    assert infos[..pos + 1] == infos[..pos] + [infos[pos]];
  }

  /** The second pair of loops: the strips one after the other. */
  method Organise(grid: Grid) returns (organised: array<Pixel>)
    requires grid.Valid() && grid.starts.Length == NUM_STRIPS && grid.rows == MAX_STRIP_SIZE
    ensures fresh(organised) && organised.Length == NUM_PIXELS
    ensures forall c: nat, s: nat :: IsSlot(c, s) ==> Offset(c) + s < NUM_PIXELS && s < MAX_STRIP_SIZE
    ensures forall c: nat, s: nat :: IsSlot(c, s) ==> organised[Offset(c) + s] == grid.Cell(c, s)
  {
    forall c: nat, s: nat | IsSlot(c, s) ensures Offset(c) + s < NUM_PIXELS && s < MAX_STRIP_SIZE {
      SlotInside(c, s);
    }
    organised := new Pixel[NUM_PIXELS];
    var offset := 0;
    for channel := 0 to NUM_STRIPS
      invariant offset == Offset(channel)
      invariant forall c: nat, s: nat :: IsSlot(c, s) && c < channel ==> organised[Offset(c) + s] == grid.Cell(c, s)
      modifies organised
    {
      for s := 0 to STRIP_SIZE[channel]
        invariant forall c: nat, r: nat :: IsSlot(c, r) && (c < channel || (c == channel && r < s)) ==>
                    organised[Offset(c) + r] == grid.Cell(c, r)
        modifies organised
      {
        var colour := grid.Get(channel, s);
        forall c: nat, r: nat | IsSlot(c, r) && (c != channel || r != s) ensures Offset(c) + r != offset + s {
          SlotsDisjoint(c, r, channel, s);
        }
        SlotInside(channel, s);
        organised[s + offset] := colour;
      }
      offset := offset + STRIP_SIZE[channel];
    }
  }

  /** opc_put_pixel_list up to the send: slot `s` of strip `c` holds the colour of the LED wired there. */
  method OrganisePixels(pixels: array<Pixel>, info: List<PixelInfo>) returns (organised: array<Pixel>)
    requires info.Valid() && WiringInside(info.Values()) && |info.Values()| <= pixels.Length
    ensures fresh(organised) && organised.Length == NUM_PIXELS
    ensures forall c: nat, s: nat :: IsSlot(c, s) && WiredTo(info.Values(), c, s) >= 0 ==>
              Offset(c) + s < NUM_PIXELS && organised[Offset(c) + s] == pixels[WiredTo(info.Values(), c, s)]
  {
    hide WiredTo;
    var grid := new Grid(NUM_STRIPS, MAX_STRIP_SIZE);
    FillChannels(grid, pixels, info);
    organised := Organise(grid);
  }

  // ----- When the wiring is a bijection

  /** Every LED has a slot of its own, and there are as many LEDs as slots. */
  predicate Bijective(infos: seq<PixelInfo>) {
    && |infos| == NUM_PIXELS
    && (forall i :: 0 <= i < |infos| ==> IsSlot(infos[i].channel, infos[i].num))
    && forall i, j :: 0 <= i < j < |infos| ==> infos[i].channel != infos[j].channel || infos[i].num != infos[j].num
  }

  /** Where LED `p` goes. */
  function Place(infos: seq<PixelInfo>, p: nat): nat
    requires p < |infos| && IsSlot(infos[p].channel, infos[p].num)
  {
    Offset(infos[p].channel) + infos[p].num
  }

  lemma WiredToIsInverse(infos: seq<PixelInfo>, p: nat)
    requires Bijective(infos) && p < |infos|
    ensures WiredTo(infos, infos[p].channel, infos[p].num) == p
  {
    hide Offset;
    var q := WiredTo(infos, infos[p].channel, infos[p].num);
    assert q >= p;
  }

  /** `places` moves the elements of `a` to distinct positions of `b`. */
  ghost predicate Moves<T>(a: seq<T>, b: seq<T>, places: seq<nat>) {
    && |a| == |b| == |places|
    && (forall i :: 0 <= i < |a| ==> places[i] < |b| && b[places[i]] == a[i])
    && forall i, j :: 0 <= i < j < |places| ==> places[i] != places[j]
  }

  ghost function UpTo(n: nat): (numbers: set<nat>)
    ensures |numbers| == n && forall k: nat :: k in numbers <==> k < n
  {
    if n == 0 then {} else UpTo(n - 1) + {n - 1}
  }

  ghost function Range(places: seq<nat>): set<nat> {
    set i | 0 <= i < |places| :: places[i]
  }

  lemma {:induction false} Counted(places: seq<nat>)
    requires forall i, j :: 0 <= i < j < |places| ==> places[i] != places[j]
    ensures |Range(places)| == |places|
  {
    if places == [] {
      assert Range(places) == {};
    } else {
      var front := places[..|places| - 1];
      Counted(front);
      assert Range(places) == Range(front) + {places[|places| - 1]};
    }
  }

  /** `n` distinct places below `n` leave none free. */
  lemma Occupied(places: seq<nat>, n: nat)
    requires forall i :: 0 <= i < |places| ==> places[i] < n
    requires forall i, j :: 0 <= i < j < |places| ==> places[i] != places[j]
    requires |places| == n > 0
    ensures n - 1 in places
  {
    Counted(places);
    if n - 1 !in places {
      SubsetSize(Range(places), UpTo(n - 1));
    }
  }

  lemma WithoutMultiset<T>(s: seq<T>, j: nat)
    requires j < |s|
    ensures multiset(s) == multiset(Without(s, j)) + multiset{s[j]}
  {
    assert s == s[..j] + [s[j]] + s[j + 1..];
  }

  lemma MovesWithout<T>(a: seq<T>, b: seq<T>, places: seq<nat>, j: nat)
    requires Moves(a, b, places) && j < |a| && places[j] == |a| - 1
    ensures Moves(Without(a, j), b[..|a| - 1], Without(places, j))
  {
    var p := Without(places, j);
    forall i | 0 <= i < |a| - 1 ensures p[i] < |a| - 1 {
      assert p[i] == places[if i < j then i else i + 1];
    }
  }

  lemma LastJoins<T>(a: seq<T>, b: seq<T>, j: nat)
    requires |a| == |b| > j && b[|b| - 1] == a[j] && multiset(Without(a, j)) == multiset(b[..|b| - 1])
    ensures multiset(a) == multiset(b)
  {
    WithoutMultiset(a, j);
    assert b == b[..|b| - 1] + [b[|b| - 1]];
  }

  /** Moving elements to distinct positions is a permutation. */
  lemma {:induction false} MovesPermutes<T>(a: seq<T>, b: seq<T>, places: seq<nat>)
    requires Moves(a, b, places)
    ensures multiset(a) == multiset(b)
    decreases |a|
  {
    if a == [] {
      assert b == [];
    } else {
      var n := |a|;
      Occupied(places, n);
      var j :| 0 <= j < n && places[j] == n - 1;
      assert b[n - 1] == a[j];
      MovesWithout(a, b, places, j);
      hide Moves, Without;
      MovesPermutes(Without(a, j), b[..n - 1], Without(places, j));
      LastJoins(a, b, j);
    }
  }

  /** With a bijective wiring the organised frame is a permutation of the frame given. */
  lemma OrganisedPermutes(infos: seq<PixelInfo>, pixels: seq<Pixel>, organised: seq<Pixel>)
    requires Bijective(infos) && |pixels| == |organised| == NUM_PIXELS
    requires forall c: nat, s: nat :: IsSlot(c, s) && WiredTo(infos, c, s) >= 0 ==>
               Offset(c) + s < NUM_PIXELS && organised[Offset(c) + s] == pixels[WiredTo(infos, c, s)]
    ensures multiset(organised) == multiset(pixels)
    ensures forall p: nat :: p < NUM_PIXELS ==>
              Place(infos, p) < NUM_PIXELS && organised[Place(infos, p)] == pixels[p]
  {
    hide WiredTo, Offset;
    var places := seq(NUM_PIXELS, p requires 0 <= p < NUM_PIXELS => Place(infos, p));
    forall p: nat | p < NUM_PIXELS ensures Place(infos, p) < NUM_PIXELS && organised[Place(infos, p)] == pixels[p] {
      WiredToIsInverse(infos, p);
      SlotInside(infos[p].channel, infos[p].num);
    }
    forall i, j | 0 <= i < j < NUM_PIXELS ensures places[i] != places[j] {
      SlotsDisjoint(infos[i].channel, infos[i].num, infos[j].channel, infos[j].num);
    }
    MovesPermutes(pixels, organised, places);
  }
}
