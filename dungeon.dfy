/** A text dungeon carved out of a grid of walls: rectangular rooms, each
    joined to the previous one by an L-shaped corridor between their centres.
    The random draws of the generator (room sizes and positions) are inputs;
    the grid is a sequence of rows, row y holding the cells x = 0, 1, ... */
module Dungeon {

  const WALL: char := '#'
  const FLOOR: char := '.'

  function Min(a: int, b: int): int {
    if a < b then a else b
  }

  function Max(a: int, b: int): int {
    if a < b then b else a
  }

  /** d has max(0, h) rows of max(0, w) cells: a negative extent gives an empty
      range of rows or of cells. */
  ghost predicate HasDims(d: seq<seq<char>>, w: int, h: int) {
    |d| == Max(0, h) && forall y :: 0 <= y < |d| ==> |d[y]| == Max(0, w)
  }

  /** Every row is as long as the first. */
  ghost predicate Rectangular(d: seq<seq<char>>) {
    forall y :: 0 <= y < |d| ==> |d[y]| == |d[0]|
  }

  /** A grid of the given extent holding only walls; each row is a row of its own. */
  function CreateEmptyDungeon(width: int, height: int): (d: seq<seq<char>>)
    ensures HasDims(d, width, height) && Rectangular(d)
    ensures forall y, x :: 0 <= y < |d| && 0 <= x < |d[y]| ==> d[y][x] == WALL
  {
    seq(Max(0, height), _ => seq(Max(0, width), _ => WALL))
  }

  predicate IsValidPosition(x: int, y: int, width: int, height: int) {
    0 <= x < width && 0 <= y < height
  }

  /** On a rectangular grid, the valid positions for the grid's own extent are
      exactly the cells that exist: a negative coordinate is never valid. */
  lemma ValidPositionIsCell(d: seq<seq<char>>, x: int, y: int)
    requires Rectangular(d) && d != []
    ensures IsValidPosition(x, y, |d[0]|, |d|) <==> 0 <= y < |d| && 0 <= x < |d[y]|
  {
    if 0 <= y < |d| {
      assert |d[y]| == |d[0]|;
    }
  }

  /** (cx, cy) lies in the rectangle of w columns from x and h rows from y. */
  predicate InRect(x: int, y: int, w: int, h: int, cx: int, cy: int) {
    x <= cx < x + w && y <= cy < y + h
  }

  /** Turns every cell of the rectangle that lies inside the grid into floor;
      the parts outside are skipped. The width of the grid is taken from its
      first row, so carving a non-empty rectangle into a grid without rows
      fails (ok is false) before anything is written. */
  method CarveRoom(dungeon: seq<seq<char>>, x: int, y: int, roomWidth: int, roomHeight: int)
    returns (carved: seq<seq<char>>, ok: bool)
    requires Rectangular(dungeon)
    ensures ok <==> !(dungeon == [] && 0 < roomWidth && 0 < roomHeight)
    ensures |carved| == |dungeon| && forall cy :: 0 <= cy < |carved| ==> |carved[cy]| == |dungeon[cy]|
    ensures forall cy, cx | 0 <= cy < |dungeon| && 0 <= cx < |dungeon[cy]| ::
      carved[cy][cx] == if InRect(x, y, roomWidth, roomHeight, cx, cy) then FLOOR else dungeon[cy][cx]
  {
    carved := dungeon;
    var dy := 0;
    while dy < roomHeight
      invariant 0 <= dy <= Max(0, roomHeight)
      invariant dungeon == [] ==> carved == [] && (0 < dy ==> roomWidth <= 0)
      invariant |carved| == |dungeon| && forall cy :: 0 <= cy < |carved| ==> |carved[cy]| == |dungeon[cy]|
      invariant forall cy, cx | 0 <= cy < |dungeon| && 0 <= cx < |dungeon[cy]| ::
        carved[cy][cx] == if InRect(x, y, roomWidth, dy, cx, cy) then FLOOR else dungeon[cy][cx]
    {
      var dx := 0;
      while dx < roomWidth
        invariant 0 <= dx <= Max(0, roomWidth)
        invariant dungeon == [] ==> carved == [] && dx == 0
        invariant |carved| == |dungeon| && forall cy :: 0 <= cy < |carved| ==> |carved[cy]| == |dungeon[cy]|
        invariant forall cy, cx | 0 <= cy < |dungeon| && 0 <= cx < |dungeon[cy]| ::
          carved[cy][cx]
            == if InRect(x, y, roomWidth, dy, cx, cy) || (cy == y + dy && x <= cx < x + dx) then FLOOR
               else dungeon[cy][cx]
      {
        var currentX := x + dx;
        var currentY := y + dy;
        if carved == [] {
          return carved, false;
        }
        if IsValidPosition(currentX, currentY, |carved[0]|, |carved|) {
          assert |carved[currentY]| == |carved[0]|;
          carved := carved[currentY := carved[currentY][currentX := FLOOR]];
        }
        dx := dx + 1;
      }
      dy := dy + 1;
    }
    ok := true;
  }

  /** The draws of one room: its width and height, then its left column and top row. */
  datatype Room = Room(w: int, h: int, x: int, y: int)

  /** The draws lie in the ranges the generator draws them from: sides from 3 to
      the maximum size, and a position that keeps the room off the outer ring
      of the grid. */
  predicate Drawable(r: Room, width: int, height: int, maxRoomSize: int) {
    && 3 <= r.w <= maxRoomSize && 3 <= r.h <= maxRoomSize
    && 1 <= r.x <= width - r.w - 1 && 1 <= r.y <= height - r.h - 1
  }

  predicate InRoom(r: Room, cx: int, cy: int) {
    InRect(r.x, r.y, r.w, r.h, cx, cy)
  }

  /** The centre recorded for a room, halving its sides rounded down. */
  function Centre(r: Room): (c: (int, int))
    ensures 1 <= r.w ==> r.x <= c.0 < r.x + r.w
    ensures 1 <= r.h ==> r.y <= c.1 < r.y + r.h
  {
    (r.x + r.w / 2, r.y + r.h / 2)
  }

  /** The centres of the rooms, in the order they were placed. */
  function Centres(rooms: seq<Room>): (cs: seq<(int, int)>)
    ensures |cs| == |rooms| && forall i :: 0 <= i < |rooms| ==> cs[i] == Centre(rooms[i])
  {
    seq(|rooms|, i requires 0 <= i < |rooms| => Centre(rooms[i]))
  }

  /** (cx, cy) lies on the corridor from a to b: along row a.1 between the two
      columns, then along column b.0 between the two rows, ends included. */
  predicate OnCorridor(a: (int, int), b: (int, int), cx: int, cy: int) {
    || (cy == a.1 && Min(a.0, b.0) <= cx <= Max(a.0, b.0))
    || (cx == b.0 && Min(a.1, b.1) <= cy <= Max(a.1, b.1))
  }

  /** (cx, cy) lies in one of the first k rooms. */
  ghost predicate InSomeRoom(rooms: seq<Room>, k: int, cx: int, cy: int) {
    exists i :: 0 <= i < k && i < |rooms| && InRoom(rooms[i], cx, cy)
  }

  /** (cx, cy) lies on one of the corridors joining centre i - 1 to centre i,
      for 0 < i < k. */
  ghost predicate OnSomeCorridor(cs: seq<(int, int)>, k: int, cx: int, cy: int) {
    exists i :: 1 <= i < k && i < |cs| && OnCorridor(cs[i - 1], cs[i], cx, cy)
  }

  /** Carves the rooms one after the other and records their centres. */
  method PlaceRooms(dungeon: seq<seq<char>>, width: int, height: int, numRooms: int,
                    maxRoomSize: int, draws: seq<Room>)
    returns (placed: seq<seq<char>>, rooms: seq<(int, int)>)
    requires HasDims(dungeon, width, height)
    requires |draws| == Max(0, numRooms)
    requires forall i :: 0 <= i < |draws| ==> Drawable(draws[i], width, height, maxRoomSize)
    ensures HasDims(placed, width, height)
    ensures rooms == Centres(draws)
    ensures forall cy, cx | 0 <= cy < |dungeon| && 0 <= cx < |dungeon[cy]| ::
      placed[cy][cx] == if InSomeRoom(draws, |draws|, cx, cy) then FLOOR else dungeon[cy][cx]
  {
    placed := dungeon;
    rooms := [];
    var n := 0;
    while n < numRooms
      invariant 0 <= n <= |draws|
      invariant HasDims(placed, width, height)
      invariant rooms == Centres(draws[..n])
      invariant forall cy, cx | 0 <= cy < |dungeon| && 0 <= cx < |dungeon[cy]| ::
        placed[cy][cx] == if InSomeRoom(draws, n, cx, cy) then FLOOR else dungeon[cy][cx]
    {
      var roomW, roomH := draws[n].w, draws[n].h;
      var roomX, roomY := draws[n].x, draws[n].y;
      assert Drawable(draws[n], width, height, maxRoomSize);
      assert Rectangular(placed) by {
        assert |placed| > 0;
      }
      var ok;
      placed, ok := CarveRoom(placed, roomX, roomY, roomW, roomH);
      assert ok;
      forall cy, cx | 0 <= cy < |dungeon| && 0 <= cx < |dungeon[cy]|
        ensures placed[cy][cx] == if InSomeRoom(draws, n + 1, cx, cy) then FLOOR else dungeon[cy][cx]
      {
        if InRoom(draws[n], cx, cy) {
          assert InSomeRoom(draws, n + 1, cx, cy);
        } else if InSomeRoom(draws, n + 1, cx, cy) {
          var i :| 0 <= i < n + 1 && i < |draws| && InRoom(draws[i], cx, cy);
          assert InSomeRoom(draws, n, cx, cy);
        }
      }
      rooms := rooms + [(roomX + roomW / 2, roomY + roomH / 2)];
      assert draws[..n + 1] == draws[..n] + [draws[n]];
      n := n + 1;
    }
    assert draws[..n] == draws;
  }

  /** Carves the corridor from centre a to centre b: first along row a.1, then
      along column b.0, skipping positions outside the grid. */
  method CarveCorridor(dungeon: seq<seq<char>>, width: int, height: int, a: (int, int), b: (int, int))
    returns (carved: seq<seq<char>>)
    requires HasDims(dungeon, width, height)
    ensures HasDims(carved, width, height)
    ensures forall cy, cx | 0 <= cy < |dungeon| && 0 <= cx < |dungeon[cy]| ::
      carved[cy][cx] == if OnCorridor(a, b, cx, cy) then FLOOR else dungeon[cy][cx]
  {
    carved := dungeon;
    var (x1, y1) := a;
    var (x2, y2) := b;
    for x := Min(x1, x2) to Max(x1, x2) + 1
      invariant HasDims(carved, width, height)
      invariant forall cy, cx | 0 <= cy < |dungeon| && 0 <= cx < |dungeon[cy]| ::
        carved[cy][cx] == if cy == y1 && Min(x1, x2) <= cx < x then FLOOR else dungeon[cy][cx]
    {
      if IsValidPosition(x, y1, width, height) {
        carved := carved[y1 := carved[y1][x := FLOOR]];
      }
    }
    for y := Min(y1, y2) to Max(y1, y2) + 1
      invariant HasDims(carved, width, height)
      invariant forall cy, cx | 0 <= cy < |dungeon| && 0 <= cx < |dungeon[cy]| ::
        carved[cy][cx]
          == if (cy == y1 && Min(x1, x2) <= cx <= Max(x1, x2)) || (cx == x2 && Min(y1, y2) <= cy < y) then FLOOR
             else dungeon[cy][cx]
    {
      if IsValidPosition(x2, y, width, height) {
        carved := carved[y := carved[y][x2 := FLOOR]];
      }
    }
  }

  /** Joins each room to the one placed before it. */
  method ConnectRooms(dungeon: seq<seq<char>>, width: int, height: int, rooms: seq<(int, int)>)
    returns (connected: seq<seq<char>>)
    requires HasDims(dungeon, width, height)
    ensures HasDims(connected, width, height)
    ensures forall cy, cx | 0 <= cy < |dungeon| && 0 <= cx < |dungeon[cy]| ::
      connected[cy][cx] == if OnSomeCorridor(rooms, |rooms|, cx, cy) then FLOOR else dungeon[cy][cx]
  {
    connected := dungeon;
    var i := 1;
    while i < |rooms|
      invariant 1 <= i && (1 <= |rooms| ==> i <= |rooms|)
      invariant HasDims(connected, width, height)
      invariant forall cy, cx | 0 <= cy < |dungeon| && 0 <= cx < |dungeon[cy]| ::
        connected[cy][cx] == if OnSomeCorridor(rooms, i, cx, cy) then FLOOR else dungeon[cy][cx]
    {
      var (x1, y1) := rooms[i - 1];
      var (x2, y2) := rooms[i];
      connected := CarveCorridor(connected, width, height, (x1, y1), (x2, y2));
      forall cy, cx | 0 <= cy < |dungeon| && 0 <= cx < |dungeon[cy]|
        ensures connected[cy][cx] == if OnSomeCorridor(rooms, i + 1, cx, cy) then FLOOR else dungeon[cy][cx]
      {
        if OnCorridor(rooms[i - 1], rooms[i], cx, cy) {
          assert OnSomeCorridor(rooms, i + 1, cx, cy);
        } else if OnSomeCorridor(rooms, i + 1, cx, cy) {
          var j :| 1 <= j < i + 1 && j < |rooms| && OnCorridor(rooms[j - 1], rooms[j], cx, cy);
          assert OnSomeCorridor(rooms, i, cx, cy);
        }
      }
      i := i + 1;
    }
  }

  /** The whole generator: a grid of walls, the rooms carved in the order drawn,
      then the corridors between consecutive centres. A cell is floor exactly
      when it lies in some room or on some corridor. */
  method GenerateDungeon(width: int, height: int, numRooms: int, maxRoomSize: int, draws: seq<Room>)
    returns (dungeon: seq<seq<char>>)
    requires |draws| == Max(0, numRooms)
    requires forall i :: 0 <= i < |draws| ==> Drawable(draws[i], width, height, maxRoomSize)
    ensures HasDims(dungeon, width, height)
    ensures forall cy, cx | 0 <= cy < |dungeon| && 0 <= cx < |dungeon[cy]| ::
      dungeon[cy][cx]
        == if InSomeRoom(draws, |draws|, cx, cy) || OnSomeCorridor(Centres(draws), |draws|, cx, cy) then FLOOR
           else WALL
  {
    var empty := CreateEmptyDungeon(width, height);
    var placed, rooms := PlaceRooms(empty, width, height, numRooms, maxRoomSize, draws);
    dungeon := ConnectRooms(placed, width, height, rooms);
  }

  /** A drawn room, and so its centre, keeps off the outer ring of the grid. */
  lemma RoomInsideBorder(r: Room, width: int, height: int, maxRoomSize: int, cx: int, cy: int)
    requires Drawable(r, width, height, maxRoomSize) && InRoom(r, cx, cy)
    ensures 1 <= cx <= width - 2 && 1 <= cy <= height - 2
    ensures IsValidPosition(cx, cy, width, height)
  {
  }

  /** None of the carving reaches the outer ring: rooms keep off it, and so do
      corridors, which run between centres of rooms. So the generated dungeon
      is walled all round. */
  lemma BorderStaysWall(draws: seq<Room>, width: int, height: int, maxRoomSize: int, cx: int, cy: int)
    requires forall i :: 0 <= i < |draws| ==> Drawable(draws[i], width, height, maxRoomSize)
    requires cx == 0 || cy == 0 || cx == width - 1 || cy == height - 1
    ensures !InSomeRoom(draws, |draws|, cx, cy)
    ensures !OnSomeCorridor(Centres(draws), |draws|, cx, cy)
  {
  }

  /** Each corridor runs from the centre of the earlier room, which lies in
      that room, through the corner (b.0, a.1) to the centre of the later room,
      which lies in the later room. */
  lemma CorridorJoinsRooms(draws: seq<Room>, width: int, height: int, maxRoomSize: int, i: int)
    requires forall j :: 0 <= j < |draws| ==> Drawable(draws[j], width, height, maxRoomSize)
    requires 1 <= i < |draws|
    ensures var a, b := Centre(draws[i - 1]), Centre(draws[i]);
      && InRoom(draws[i - 1], a.0, a.1) && InRoom(draws[i], b.0, b.1)
      && OnCorridor(a, b, a.0, a.1) && OnCorridor(a, b, b.0, a.1) && OnCorridor(a, b, b.0, b.1)
      && OnSomeCorridor(Centres(draws), |draws|, a.0, a.1)
      && OnSomeCorridor(Centres(draws), |draws|, b.0, b.1)
  {
    assert Drawable(draws[i - 1], width, height, maxRoomSize);
    assert Drawable(draws[i], width, height, maxRoomSize);
    var cs := Centres(draws);
    assert OnCorridor(cs[i - 1], cs[i], cs[i - 1].0, cs[i - 1].1);
    assert OnCorridor(cs[i - 1], cs[i], cs[i].0, cs[i].1);
  }
}
