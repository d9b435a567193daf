# SneakyLoop simulation core in Dafny

SneakyLoop is a multiplayer snake game on a 640 × 512 torus. Human and bot
snakes steer around the field and eat fruit. They can cut each other's tails
off, and a cut-off tail (a "skin") can be picked up again by its owner. This
project models the state that changes from one update to the next, and proves
properties of that model:

- each snake's node chain, score, speed, steering keys, dash bar and shield
  timer, plus the bot's action timer;
- the collision registry and its table of cut skins;
- the fruit spawner, its list of fruits and the fruits' effects;
- the round's countdown, pause flag and 180-second timer;
- the main menu's colour list and its per-snake widget lists;
- the ordering of the game-over score table.

The modules follow the program's files:

| module | file | contents |
|---|---|---|
| `Globals` | `globals.dfy` | field size, colours, the settings object |
| `Torus` | `torus.dfy` | `wrap`, `wrap_ip` and `shortest_vector` over integer points |
| `SnakeRules` | `snake_rules.dfy` | value-level rules of a single snake: speed, score, steering, timers, bot action, self-collision scan |
| `CollisionRules` | `collision_rules.dfy` | value-level rules of the collision manager: cut, attack, rejoin, the pairwise pass, skin decay |
| `Snakes` | `snake.dfy` | the `Snake` and `CollisionManager` classes, tied to the rules above |
| `Fruits` | `fruit.dfy` | fruits, the spawner, and the snake's fruit check |
| `Scenes` | `scene_manager.dfy` | round state machine, gameplay scene, menu list resizing, score table, scene switch |

The classes keep the fields the source mutates:

- The methods of `Snake`, `CollisionManager`, `Fruit`, `FruitsSpawner`,
  `Gameplay` and `MainMenu` change those fields in place.
- Each method's `ensures` ties the new state to the old state through a pure
  function: `SelfScan`, `Cut`, `Attack`, `Rejoin`, `CheckAll`, `Decay`,
  `BoostTick`, `SpawnStep`, `Tick`, `SortByScore`.
- The properties are then proved about those functions as lemmas.

Modelling choices:

- Class-level globals become objects passed to the methods. `Snake.pause`
  and `Snake.snake_count` live in `Snakes.Session`. The singleton spawner,
  registry and scene manager are explicit parameters.
- `SnakeAI` is folded into `Snake`, as `const isBot` plus the action fields.
  The three fruit subclasses are one `Fruit` class with a `kind` tag.
- Positions are integer points (`Torus.Pos`). Every proximity test is the raw
  Euclidean distance, as in the source, and not a torus distance. It is
  written as squared distance below r².
- Timers and multipliers are exact `real`s.
- Randomness becomes parameters:
  - the spawn position and the fruit kind's roll;
  - the bot's next action;
  - the bot start positions, headings and first actions;
  - generated colours.
- In pygame, `pos` and `nodes[0]` are the same vector object, so
  `Snake.Valid()` keeps `pos == nodes[0]`.
- Python quirks are reproduced as written:
  - `for other in self.snakes[1:]` also checks every snake except the first against itself;
  - the `break` in `Snake.check_collisions` leaves only the inner loop, so one
    tick can delete several slices;
  - rejoin puts the skin's nodes first;
  - decay drops an entry only when its timer was already `<= 0` at the start
    of the tick;
  - `sorted(reverse=True)` is stable.

Behaviour of the code worth noting:

- `shortest_vector((10,10), (630,10))` is `(-20, 0)` (`Torus.ShortestVectorAcrossEdge`);
- the self-collision scan may cut more than once per tick (`SnakeRules.TwoCutsExample`).

## Model

| member | source | states |
|---|---|---|
| Globals.Settings.constructor | globals.py:7-19 | the settings start with the ten given colours, one bot and three players |
| Torus.Wrap | utils.py:53-54 | the wrapped point lies in [0, W) × [0, H) and is congruent to the input modulo W and H |
| Torus.WrapUnique | utils.py:53-54 | any point in the field congruent to p is `Wrap(p)`, so `Wrap` is Python's floor remainder |
| Torus.WrapIdempotent | utils.py:53-54 | wrapping twice is the same as wrapping once |
| Torus.WrapInPlace | utils.py:57-60 | the vector's coordinates are replaced by the wrapped ones |
| Torus.ShortestVector | utils.py:63-66 | dx in [-W/2, W/2), dy in [-H/2, H/2), and from + (dx, dy) is congruent to to |
| Torus.ShortestVectorMinimal | utils.py:63-66 | no other displacement reaching the same point modulo the field is shorter on either axis |
| Torus.ShortestVectorToSelf | utils.py:63-66 | the vector from a point to itself is (0, 0) |
| Torus.ShortestVectorAcrossEdge | utils.py:63-66 | from (10, 10) to (630, 10) the vector is (-20, 0) |
| SnakeRules.CalcSpeed | snake.py:230-231 | the speed is the larger of 7 × length and 100, so at least 100 |
| SnakeRules.ScoreFunc | snake.py:226-228 | a loop of n nodes earns at least n points, and more than n once n ≥ 2 |
| SnakeRules.RightDown | snake.py:242-244 | right key held, turning right, left key untouched |
| SnakeRules.LeftDown | snake.py:246-248 | left key held, turning left, right key untouched |
| SnakeRules.RightUp | snake.py:250-255 | right key released; turning left if the left key is held, straight otherwise |
| SnakeRules.LeftUp | snake.py:257-262 | left key released; turning right if the right key is held, straight otherwise |
| SnakeRules.TimersStep | snake.py:298-312 | paused: nothing changes; else the bar refills below its cap, an empty bar stops the dash, a dash drains dt, and the shield counts down or sits at 0 |
| SnakeRules.TimersStayBounded | snake.py:300-312 | over any run of ticks of at most d seconds, the dash bar stays in [-d, 2 + 0.2d] and the shield timer in [-d, its starting value] |
| SnakeRules.AiAction.Value | snake.py:346-349 | the enum's value is -1, 0 or 1, matching LEFT, STRAIGHT, RIGHT |
| SnakeRules.AiStep | snake.py:364-371 | the action timer accumulates dt, and past 3 s it restarts at 0 with the new action; with non-negative times it stays in [0, 3] |
| SnakeRules.DeleteSlice | snake.py:272 | `del nodes[first:last]`: length drops by last - first, prefix and suffix are kept, and no node is invented |
| SnakeRules.FirstWithin | snake.py:53-59 | the first index from `from` that lies within r of the head, or the length if there is none |
| SnakeRules.InnerScan | snake.py:280-285 | the inner j loop: when a later node is within NODE_R of node i, the slice up to the first such node is deleted and scores its length squared; the list never grows or empties, and at least one point is scored per deleted node |
| SnakeRules.InnerScanMiss | snake.py:280-285 | the inner loop changes nothing exactly when no later node is within NODE_R of node i |
| SnakeRules.InnerScanKeepsNodes | snake.py:280-285 | the inner loop only deletes: what is left is a sub-multiset of the old nodes |
| SnakeRules.SelfScan | snake.py:278-285 | the nested scan keeps at least one node and never lengthens the body; the score grows by at least the number of nodes removed; no removal means no change |
| SnakeRules.SelfScanKeepsNodes | snake.py:278-285 | the nested scan invents no node: the nodes left are a sub-multiset of the old ones |
| SnakeRules.SelfCollisionExample | snake.py:278-285 | on a concrete 6-node chain whose nodes 2 and 5 meet, the scan deletes nodes 2..4 and earns 9 points |
| SnakeRules.TwoCutsExample | snake.py:278-285 | on a concrete 6-node chain the scan makes two cuts in one tick and earns 8 points, because `break` leaves only the inner loop |
| CollisionRules.Cut | snake.py:39-49 | the snake keeps nodes[:k], and the skin table stores nodes[k:] under its id with a 10 s timer; kept ++ skin is the old list, other entries are unchanged, and speed follows the new length |
| CollisionRules.Attack | snake.py:51-59 | nothing changes iff no node from index 1 on is within NODE_R of the head; otherwise it cuts at the smallest such index; the head always stays |
| CollisionRules.Rejoin | snake.py:61-66 | the new nodes are skin ++ old nodes, the length is the sum, the entry is popped, pos is the new head, and speed is recomputed |
| CollisionRules.CutThenRejoin | snake.py:39-66 | cutting at k and rejoining gives nodes[k:] ++ nodes[:k], the same multiset of nodes, and speed recomputed for the original length |
| CollisionRules.GuardedAttack | snake.py:75-78 | a snake with one node or an active shield is never the attacked snake; only the attacked snake can change |
| CollisionRules.PairStep | snake.py:74-78 | one inner iteration touches only cur and other |
| CollisionRules.InnerPass | snake.py:74-78 | the inner loop keeps the roster (ids and shields) |
| CollisionRules.RejoinCheck | snake.py:80-86 | the rejoin test changes only snake c |
| CollisionRules.OuterPass | snake.py:73-86 | the outer loop keeps the roster |
| CollisionRules.CheckAll | snake.py:70-86 | with fewer than two snakes nothing changes; otherwise the roster is kept |
| CollisionRules.ShieldImmunity | snake.py:70-86 | over a whole check_collisions pass, a shielded snake loses no nodes: its old nodes are a suffix of its new nodes |
| CollisionRules.Decay | snake.py:88-96 | an entry stays iff its timer was positive at the start of the tick, and a survivor's timer drops by exactly dt; no entry is added |
| CollisionRules.SkinLifetime | snake.py:88-96 | over many ticks a skin survives iff its timer minus the time elapsed before each tick stayed positive; a survivor keeps its nodes and its timer dropped by the total time |
| CollisionRules.DecayedStaysGone | snake.py:88-96 | no tick brings back a skin that is gone |
| Snakes.Session.constructor | snake.py:196-197 | the counter starts at 0 and the game unpaused |
| Snakes.Snake.constructor | snake.py:199-224 | registers the snake, takes the next id and its colour, and lays out 11 nodes from the start point along the heading, with speed for 11 nodes and idle keys and timers |
| Snakes.Snake.AddScore | ui.py:69-70 | the score grows by the points |
| Snakes.Snake.AddNode | snake.py:237-240 | one node is put in front, one step along dir from the old head; old nodes shift by one; pos is the new head; speed is recomputed |
| Snakes.Snake.OnRightDown | snake.py:242-244 | the steering state becomes `RightDown` of the old one |
| Snakes.Snake.OnLeftDown | snake.py:246-248 | the steering state becomes `LeftDown` of the old one |
| Snakes.Snake.OnRightUp | snake.py:250-255 | the steering state becomes `RightUp` of the old one |
| Snakes.Snake.OnLeftUp | snake.py:257-262 | the steering state becomes `LeftUp` of the old one |
| Snakes.Snake.OnDashDown | snake.py:264-266 | the dash is switched on only when the bar is above 0 |
| Snakes.Snake.OnDashUp | snake.py:268-269 | the dash is off |
| Snakes.Snake.OnCollision | snake.py:271-276 | exactly nodes[first:last] is deleted, at least one node is left, pos is the head, speed is recomputed, and the score grows by (last - first)² |
| Snakes.Snake.CheckCollisions | snake.py:278-285 | nodes and score become exactly `SelfScan` of the old ones; speed follows the length after any removal |
| Snakes.Snake.UpdateTimers | snake.py:296-312 | dash bar, dash flag and shield become `TimersStep` of the old ones |
| Snakes.Snake.UpdateBot | snake.py:364-371 | action timer and action become `AiStep` of the old ones, and turning_dir is the action's value |
| Snakes.CollisionManager.constructor | snake.py:24-27 | an empty registry and skin table |
| Snakes.CollisionManager.Reset | snake.py:32-34 | the registry and the skin table are emptied |
| Snakes.CollisionManager.Add | snake.py:36-37 | the snake is appended to the registry |
| Snakes.CollisionManager.OnCollision | snake.py:39-49 | the attacked snake and the table become `Cut` of the old ones |
| Snakes.CollisionManager.CheckAttack | snake.py:51-59 | the attacked snake and the table become `Attack` of the old ones |
| Snakes.CollisionManager.Rejoin | snake.py:61-66 | the snake and the table become `Rejoin` of the old ones |
| Snakes.CollisionManager.CheckCollisions | snake.py:70-86 | all bodies and the table become `CheckAll` of the old ones; every other snake field is left as it was in this model (the source's rejoin also re-aims `dir`, which is left out) |
| Snakes.CollisionManager.Update | snake.py:88-96 | the skin table becomes `Decay` of the old one |
| Fruits.KindOf | fruit.py:23-29 | rolls 0, 1 and 2 give a plain, speed and shield fruit; any other roll gives none |
| Fruits.BoostTick | fruit.py:59-65 | a spent boost is left alone; a live boost whose timer is below 0 divides the multiplier by 1.5 and ends; otherwise it keeps the multiplier and stays live; a live boost's timer drops by dt |
| Fruits.SpentBoostStays | fruit.py:59-65 | an undone boost never changes again |
| Fruits.BoostUndone | fruit.py:59-74 | after a hit multiplies m by 1.5, the boost is active iff its timer has not yet been seen below 0; the multiplier is m × 1.5 while active and exactly m after |
| Fruits.SpawnStep | fruit.py:15-20 | at most one fruit per tick, exactly when the timer has reached 2 s; the timer restarts at 0 then, and dt is added in either case |
| Fruits.QuietInterval | fruit.py:15-20 | a run of ticks spawns nothing iff the timer plus the elapsed time stayed below 2 s before each tick; the timer then grew by the total time |
| Fruits.RemoveFirst | fruit.py:42 | `list.remove` drops one occurrence: the length drops by one and the multiset loses x |
| Fruits.RemoveFirstDistinct | fruit.py:42 | on a list without duplicates, remove deletes exactly x at its index and keeps the list duplicate-free |
| Fruits.Fruit.constructor | fruit.py:36-39 | a live fruit of the given kind and position, with no snake recorded and a 3 s timer |
| Fruits.Fruit.TriggerHit | fruit.py:41-83 | every kind removes exactly this fruit from the list; a plain fruit is destroyed; a speed fruit records the snake and multiplies its speed_multiplier by 1.5; a shield fruit sets shield_timer to 3 and is destroyed |
| Fruits.Fruit.Update | fruit.py:59-65 | a speed fruit carried by a snake advances its boost by `BoostTick`; nothing else of the snake changes; other fruits do nothing |
| Fruits.FruitsSpawner.constructor | fruit.py:9-13 | an empty list with the spawn timer at 2 s |
| Fruits.FruitsSpawner.Update | fruit.py:15-20 | the timer follows `SpawnStep`; below 2 s the list is unchanged, otherwise one new fruit is spawned as `Spawn` describes |
| Fruits.FruitsSpawner.Spawn | fruit.py:22-29 | one new live fruit of the rolled kind, at the given position, with no carrier and a 3 s boost timer, is appended and earlier entries stay; no fruit for a roll outside 0..2 |
| Fruits.FruitsSpawner.Remove | fruit.py:42 | the list becomes `RemoveFirst` of the old one |
| Fruits.OnHitFruit | snake.py:233-235 | the snake grows one node at the front, then the fruit's hit takes effect and it leaves the list |
| Fruits.CheckFruitCollision | snake.py:287-294 | the first fruit in list order within R + NODE_R of the head is eaten (the snake grows one node, speed is recomputed) and the scan stops; with none, the snake's nodes, speed and buffs and the list are unchanged; no other fruit changes |
| Scenes.Tick | scene_manager.py:338-364 | the countdown is clamped at -1; a paused round keeps its timer until the countdown passes -1, then restarts at 180 and unpauses; a running round's timer drops by dt; the round is over iff the timer is below 0, which pauses it |
| Scenes.CountdownFreezesTimer | scene_manager.py:340-357 | while the countdown has not passed -1, a paused round stays paused and its timer does not change |
| Scenes.RunningRoundCountsDown | scene_manager.py:353-364 | once running, the round timer drops by the elapsed time and the round continues while it stays at or above 0 |
| Scenes.SceneManager.constructor | scene_manager.py:497-500 | the first scene is the main menu |
| Scenes.SceneManager.SetScene | scene_manager.py:511-514 | the scene type becomes the requested one |
| Scenes.Gameplay.constructor | scene_manager.py:306-320 | timer 180, countdown 3, snakes and spawner paused, skin table empty, and the registry exactly the new bots then players, numbered on from the counter, each with score 0 and colour `colors[id]`; bot i is laid out from `botSpots(i)` and players from (W, H/2); the spawner's fruit list and spawn timer carry over unchanged |
| Scenes.Gameplay.Update | scene_manager.py:338-364 | the round state becomes `Tick` of the old one; when it ends, the scene becomes game over and the skin table is emptied while the registry is kept |
| Scenes.Gameplay.Kill | scene_manager.py:378-380 | the snake counter is reset to 0 |
| Scenes.MainMenu.constructor | scene_manager.py:175-199 | the menu starts with one picker per bot and one row per player |
| Scenes.MainMenu.UpdateBotsColorPickers | scene_manager.py:211-248 | exactly bots_count pickers; existing ones are kept, new picker i takes colours[i], and a surplus is cut off |
| Scenes.MainMenu.UpdatePlayersSettings | scene_manager.py:256-274 | exactly players_count rows; existing ones are kept, new row i takes colours[bots_count + i], and a surplus is cut off |
| Scenes.MainMenu.UpdateSnakeColor | scene_manager.py:207-209 | only colour idx changes, to the picked colour |
| Scenes.MainMenu.GrowColors | scene_manager.py:277-279 | generated colours are appended until there is one per snake; existing colours are unchanged |
| Scenes.MainMenu.OnBotsChange | scene_manager.py:276-281 | bots_count is the value; afterwards len(colours) ≥ bots + players and old colours are unchanged; exactly bots_count pickers |
| Scenes.MainMenu.OnPlayersChange | scene_manager.py:283-288 | players_count is the value; afterwards len(colours) ≥ bots + players and old colours are unchanged; exactly players_count rows |
| Scenes.Insert | scene_manager.py:449-453 | inserting one entry makes the table exactly one line longer |
| Scenes.SortByScore | scene_manager.py:449-453 | the sorted table has one line per registry entry |
| Scenes.InsertPermutes | scene_manager.py:449-453 | inserting an entry adds exactly that entry to the table |
| Scenes.SortPermutes | scene_manager.py:449-453 | the sorted table is a permutation of the registry |
| Scenes.SortedByScore | scene_manager.py:449-453 | the sorted table is in non-increasing score order |
| Scenes.SortStable | scene_manager.py:449-453 | snakes with equal scores keep their registry order, since Python's sort is stable |
| Scenes.CreateScoreLines | scene_manager.py:447-463 | one line per snake in sorted order, labelled a bot exactly when id < bots_count, in non-increasing score order |

## Left out

- Drawing of every kind: all `render` methods, `draw_arrow`, `draw_border`, `replace_color`, the skin blink alpha, `Bar`, and the score animation. Fonts, surfaces, audio and `resource_path` are also out.
- Snake head movement and node following (`snake.py:314-331`). They use `rotate_ip`, `normalize` and floating-point motion. `Snake.update` is modelled only through its timer part (`UpdateTimers`) and the three checks it calls. The way the whole method chains them is not modelled.
- `rejoin` setting `dir` from the first two nodes' normalised difference (`snake.py:67-68`): this is floating-point and is not modelled. The model keeps the old `dir`, so an `AddNode` after a rejoin grows along the old heading rather than toward the new head.
- The engine: `GameManager` instantiate, destroy and clear_scene; `InputManager` key registration; the scene-building calls of `set_scene`. A destroyed fruit is modelled as `alive == false`. `SnakeCollisionManager.kill` is the engine's kill followed by `reset`.
- Fruits.FruitsSpawner.Update: the engine's handling of an entity's `pause` flag is not modelled. The game sets `FruitsSpawner().pause` (`scene_manager.py:311`, `351`, `360`), but whether the engine then skips `update` is decided outside the source; the model's spawner ticks while paused.
- Key bindings (`settings.keys`) and `assert i < len(settings.keys)`: `settings.keys` is not part of this model.
- Widget layout: picker positions, slider geometry and the dash bar widget. The dash bar's value is the `dashLevel` field.
- The ceiled countdown and timer values. They only decide when the text is re-rendered.
- Randomness, taken as parameters: `random_action`, `randint` for spawn positions and fruit kinds, the random start direction and bot positions, and `generate_color`.
- Scenes.MainMenu.OnBotsChange: the slider's float value is taken as a `nat` already passed through `int`.
- Snakes.Snake.constructor: the start heading is an integer vector, not a random unit vector. The positions along it are exact.
- Fruits.Fruit.Update: a destroyed speed fruit is not updated again; the model adds `alive` to the guard to express that.
- Positions are integer points. The source's `H / 2` is the float 256.0, modelled as 256.
- Scenes.Gameplay.constructor: bot i is laid out from `botSpots(i)`, a parameter standing for the random draw. The contract does not state the source's `randint(0, W)` × `randint(0, H)` range.
