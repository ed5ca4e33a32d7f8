/** An optional value: the weak_ptr lock that may yield no room, or a click
    that hits no tab. */
module Optional {
  datatype Option<T> = None | Some(value: T)
}

/** What the chat screen asks curses to draw, as values: one mvwprintw call
    writes `text` from cell (row, col) of a window, with colour pair
    `colorPair` switched on (0 for the window's default attribute). How
    curses clips or wraps a write at the window's edge is not modelled. */
module Curses {
  datatype Write = Write(row: int, col: int, text: string, colorPair: nat)

  const DefaultPair: nat := 0
  /** COLOR_PAIR(1): the selected tab and the user list. */
  const HighlightPair: nat := 1
  /** COLOR_PAIR(2): the user names in the chat pane. */
  const UsernamePair: nat := 2
}

/** The chat session the screen reads (owned by the client library) and the
    commands it sends back to it. */
module Client {
  import opened Optional

  datatype Message = Message(user: string, text: string)

  /** A room as the screen sees it: its name, its messages oldest first, and
      the names of its users. */
  datatype Room = Room(name: string, messages: seq<Message>, users: seq<string>)

  /** The rooms in client order, and which one is the primary (selected)
      chat room, as an index into `rooms`. */
  datatype Session = Session(rooms: seq<Room>, primary: Option<nat>) {
    predicate Valid() {
      primary.Some? ==> primary.value < |rooms|
    }
  }

  /** Commands to the client: SendChat on the primary room,
      SetPrimaryChatroomDelta, SetPrimaryChatroom on a room by index. */
  datatype Command = SendChat(text: string) | SelectDelta(delta: int) | SelectRoom(room: nat)

  function Names(rooms: seq<Room>): (names: seq<string>)
    ensures |names| == |rooms|
    ensures forall k :: 0 <= k < |rooms| ==> names[k] == rooms[k].name
  {
    seq(|rooms|, k requires 0 <= k < |rooms| => rooms[k].name)
  }
}
