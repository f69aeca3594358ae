# desk_light_control: discovery, MAC lookup and scene dispatch

A Dafny model of the decision logic in `desk_light_control.py`, a small GTK
tool that finds a WiZ smart bulb on the local network and sends it commands.
Three parts of the script are modelled and proved:

- **Discovery collection loop** (`Discovery`, in `discovery.dfy`). After the
  `getSystemConfig` broadcast has been sent, `discover` keeps calling
  `recvfrom` with a 0.2 s timeout. It stores each reply in a dictionary keyed
  by the sender's IP address. It stops at the first timeout, or right after
  storing a reply with an empty payload, because `while response` treats
  `b''` as false. The socket is a finite sequence of `Outcome`s
  (`Datagram(ip, port, payload)` or `Timeout`). When that sequence runs out,
  the socket stays silent, so the next receive times out. The dictionary is
  an association list in insertion order (`Responses`). `Put` overwrites an
  existing key where it already sits and appends a new key at the end, as a
  Python dict does. `Discover` is the loop itself. It is proved against the
  specification functions `Consumed` (how many outcomes are read) and
  `Collect` (the resulting dictionary). The lemmas about those functions
  state what the loop promises.
- **MAC normalisation and lookup** (`MacLookup`, in `mac_lookup.dfy`).
  `Normalize` is `text.lower().replace(':', '')`. `FindMac` is the
  `for ... else` scan, lifted out of the widget: it takes the MAC text and
  the replies as `Device(ip, mac)` in dictionary order, and returns the
  address of the first exact match. `DiscoverPanel` holds the two entry
  texts. Its `OnDiscoverButtonClicked` runs a discovery round and updates
  the IP text only when a match is found.
- **Scene dispatch** (`Scene`, in `scene.dfy`). `SceneIdFor` offers the
  scene text to `int()` (`ParseInt`). Text that parses is the scene id.
  Any other text goes to the name lookup, which is a function parameter.

`wrappers.dfy` holds the `Option` type shared by the modules.

Only the operator's MAC text is normalised: it is lower-cased and its `:`
characters are removed, while `-` and other separators are kept. The
reply's `result.mac` is then compared with it exactly, without any
normalisation.

The script has no brightness control, so none is modelled.

## Model

| member | source | states |
|---|---|---|
| Discovery.Discover | desk_light_control.py:58-69 | the loop reads exactly `Consumed(socket)` outcomes and returns `Collect(socket)`; its keys are distinct; a first outcome that is a timeout (or a silent socket) gives the empty dictionary, not an error |
| Discovery.Consumed | desk_light_control.py:59-67 | the number of outcomes of the socket the loop reads (the final receive on a silent socket is not one of them) is at most the outcomes available; every outcome before the last one read is a non-empty datagram; the last one read is a timeout or an empty datagram unless the socket went silent |
| Discovery.NothingReadAfterStop | desk_light_control.py:59-67 | when outcome k is the first timeout or empty datagram, exactly k+1 outcomes are read, and replacing everything after it leaves the result unchanged |
| Discovery.EmptyPayloadStoredAndEnds | desk_light_control.py:59-65 | a first empty datagram is still stored under its address (as `b''`) and is the last outcome read |
| Discovery.CollectHoldsLastReadReply | desk_light_control.py:62-65 | for every datagram the loop read, the returned dictionary maps its address to the payload of the last datagram read from that address |
| Discovery.CollectKeysAreReadSenders | desk_light_control.py:60-65 | an address is in the returned dictionary exactly when the loop read a datagram from it (both directions) |
| Discovery.StoreLastReplyWins | desk_light_control.py:62-65 | after any sequence of receives, an address maps to the payload of its last datagram (last reply wins) |
| Discovery.StoreKeysAreSenders | desk_light_control.py:62-65 | an address is a key exactly when some datagram came from it; timeouts and ports add nothing |
| Discovery.StoreKeysPrefix | desk_light_control.py:65 | later replies never reorder or remove keys: earlier key lists are prefixes of later ones |
| Discovery.PositionOfFirstReply | desk_light_control.py:65 | an address sits at the position of its first reply, after exactly the addresses heard before it, whatever it sends later |
| Discovery.StoreKeysDistinct | desk_light_control.py:58-65 | the dictionary never holds an address twice |
| Discovery.Put | desk_light_control.py:65 | `responses[ip] = payload`: afterwards `ip` is a key, and the dictionary grows by one entry exactly when `ip` was new; key order and values are stated by PutKeys and PutLookup |
| Discovery.PutKeys | desk_light_control.py:65 | `responses[ip] = payload` keeps the key order when `ip` is present and appends `ip` otherwise; distinct keys stay distinct |
| Discovery.PutLookup | desk_light_control.py:65 | after `responses[ip] = payload`, `ip` maps to `payload` and every other address keeps its value |
| MacLookup.Normalize | desk_light_control.py:156 | the result has no `:` and no upper-case letter, and it is shorter than the input by exactly the number of `:` in the input |
| MacLookup.Lower | desk_light_control.py:156 | an upper-case letter becomes its lower-case counterpart; every other character is unchanged |
| MacLookup.NormalizeFixedPoint | desk_light_control.py:156 | normalisation leaves a text unchanged exactly when it has no `:` and no upper-case letter (both directions) |
| MacLookup.NormalizeIdempotent | desk_light_control.py:156 | normalising twice gives the same text as normalising once |
| MacLookup.NormalizeAppend | desk_light_control.py:156 | normalisation works character by character: it distributes over concatenation |
| MacLookup.NormalizeKeepsOtherSeparators | desk_light_control.py:156 | only `:` is removed: `-`, `.`, digits and every other character that no letter lower-cases to are kept, each as often as it occurs |
| MacLookup.NormalizeLowersLetters | desk_light_control.py:156 | every upper-case letter becomes its lower-case counterpart: a lower-case letter occurs in the result as often as it and its upper-case form together occur in the input |
| MacLookup.FindMac | desk_light_control.py:155-164 | an empty MAC text means no scan and no address; a returned address belongs to a reply whose mac equals the normalised text, and no earlier reply's mac does; no address means no reply's mac equals it |
| MacLookup.FirstMatchUnique | desk_light_control.py:157-162 | the first matching reply is unique, so the scan's answer is determined |
| MacLookup.DiscoverPanel.OnDiscoverButtonClicked | desk_light_control.py:153-164 | the MAC text is unchanged; with a non-empty MAC text and a first matching reply, the IP text becomes that reply's address; with an empty MAC text or no match, the IP text is unchanged |
| MacLookup.DiscoverPanel.constructor | desk_light_control.py:84-98 | the panel starts with the given IP and MAC texts |
| Scene.ParseInt | desk_light_control.py:35-37 | `int(scene)` on sign-plus-digits text; accepted text ends in a digit and a negative value comes only from a leading `-`; DigitsAccepted, LeadingZeros, ParseShow, NotNumeric and NoDigitsNotNumeric state which texts are accepted and what they are worth |
| Scene.DigitsAccepted | desk_light_control.py:35 | every run of decimal digits is accepted bare, behind `+` and behind `-`, with its decimal value (negated for `-`): `"+7"` is 7 |
| Scene.LeadingZeros | desk_light_control.py:35 | leading zeros do not change a numeral's value: `"007"` is 7 and `"-0"` is 0 |
| Scene.SceneIdFor | desk_light_control.py:34-43 | the scene id sent by `turn_light_scene`; NumericTextBypassesLookup, PrintedIdSelectsThatId and NameGoesToLookup state its two branches |
| Scene.ParseShow | desk_light_control.py:34-37 | `ParseInt(Show(n)) == Some(n)`, the model of `int(str(n)) == n`, for every integer `n` |
| Scene.NotNumeric | desk_light_control.py:34-37 | text with a character that is not a digit (other than a leading sign) makes `ParseInt` fail |
| Scene.NumericTextBypassesLookup | desk_light_control.py:34-43 | text that `ParseInt` accepts is the scene id, whatever the name lookup would answer |
| Scene.PrintedIdSelectsThatId | desk_light_control.py:34-43 | the text "7" selects scene 7, as the integer 7 does |
| Scene.NameGoesToLookup | desk_light_control.py:34-41 | every scene text that `ParseInt` rejects, including `""`, `"+"` and `"-"`, is resolved by the name lookup, and the lookup's answer is the id sent |
| Scene.NoDigitsNotNumeric | desk_light_control.py:35-37 | the empty text and a lone `+` or `-` make `ParseInt` fail |

## Left out

- Socket creation, socket options, the `getSystemConfig` broadcast and `settimeout(0.2)` (lines 49-56) are network I/O. The socket is only the sequence of its receive outcomes.
- Discovery.Discover: the socket is a finite sequence of outcomes, so the loop always ends. The script keeps reading for as long as replies arrive less than 0.2 s apart, which is unbounded. The 0.2 s timeout is not modelled as time, only as the `Timeout` outcome. A slow device that replies after the first silence is missed, as in the script. The 65536-byte receive buffer is not modelled: a payload is whatever `recvfrom` returned.
- The `verbose` printing in `discover` and the "Found mac"/"Failed to find mac" prints are logging. The not-found branch is modelled only as `None` and an unchanged IP text.
- `json.loads` and the `response['result']['mac']` lookup (lines 158-159) belong to a foreign parser. The mac field is an abstract `macOf` function, and malformed replies (JSON errors, `KeyError`) are not modelled. In particular, a stored empty reply `b''` (see `EmptyPayloadStoredAndEnds`) makes `json.loads` raise when the scan reaches it at line 158, which aborts the handler. In the model, `macOf([])` just returns some string and the scan goes on.
- MacLookup.Normalize: "no upper-case letter" refers to ASCII `A`-`Z` only, because the lower-casing it uses is ASCII-only (next line).
- MacLookup.Lower: only ASCII letters are lower-cased. Python's full Unicode `str.lower` mapping, including characters that lower-case to two characters, is not modelled.
- Scene.ParseInt: accepts only an optional `+`/`-` sign followed by ASCII digits. Python's `int()` also strips surrounding whitespace, allows `_` between digits and accepts non-ASCII decimal digits. Such texts go to the name lookup in this model but not in the script. In the other direction, CPython 3.11 and later (and the 3.7-3.10 security releases) make `int()` raise `ValueError` for a decimal text of more than 4300 digits. The script then sends such a text to the name lookup, while this model accepts it as a scene id.
- Scene.DigitsAccepted: holds for digit runs of any length. On CPython 3.11 and later, runs of more than 4300 digits are rejected by `int()` (see the Scene.ParseInt line).
- The `TypeError` branch of `turn_light_scene` (line 45) is not modelled. The scene always comes from a text entry, so it is a string. Note that `int(3.5)` would truncate to 3 and never reach that branch.
- `get_id_from_scene_name` belongs to the bulb library, which is not part of this model. It is a parameter of type `string -> Option<int>`, where `None` stands for the lookup raising on an unknown name.
- `turn_light_on`, `turn_light_off`, `turn_light_color` and the `asyncio.run(light.turn_on(...))` calls (lines 21-31, 46) are thin wrappers over the bulb library and asyncio.
- The colour-button dispatch and its `assert False` (lines 134-142) depend on GUI widget identity and pass floating-point RGBA values.
- The window construction and event wiring (lines 74-131, 167-170) are UI.
