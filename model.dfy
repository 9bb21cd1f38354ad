/** Values the tag-game relay server works with: player records, the
    downstream messages it queues for clients, and the dedup cache. */
module Model {

  /** A connected client's transport handle (a socket descriptor). */
  type Socket = int

  /** A position in world units. The server stores 32-bit floats; the model
      uses reals and does not model rounding. */
  datatype Vec3 = Vec3(x: real, y: real, z: real)

  /** Where a player starts, and what a missing dedup-cache entry reads as. */
  const Origin: Vec3 := Vec3(0.0, 0.0, 0.0)

  /** What the server keeps per connected player. */
  datatype PlayerData = PlayerData(position: Vec3, serverId: int, active: bool, isIt: bool)

  /** One registry entry: the socket and the player behind it. */
  datatype Client = Client(socket: Socket, data: PlayerData)

  /** Downstream messages. The three constructors are the three values of the
      server's BroadcastType, each with the fields its frame carries. */
  datatype Message =
    | PositionUpdate(serverId: int, position: Vec3)
    | PlayerLeft(serverId: int)
    | PlayerTagged(serverId: int)

  /** The server-id a tag notice carries to a player who is It ("you are It"). */
  const YouAreIt: int := -1

  /** A message queued for one recipient socket. */
  datatype Envelope = Envelope(to: Socket, msg: Message)

  /** Recipient socket -> sender socket -> last position forwarded. */
  type Cache = map<Socket, map<Socket, Vec3>>

  /** The position-update frame that describes a player. */
  function Update(p: PlayerData): Message
  {
    PositionUpdate(p.serverId, p.position)
  }
}
