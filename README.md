# Team splitting of the Discord team bot

This project models the team-splitting logic behind the bot's `generateteams` slash command, and proves properties of the model. When someone invokes the command, the bot does five things:

1. It takes the members of the caller's voice channel.
2. It drops the bots and keeps the usernames in roster order.
3. It refuses when fewer than two players remain.
4. It shuffles the players in place with a Fisher–Yates (Knuth) shuffle.
5. It cuts the shuffled list in two, and the first team takes the odd player.

The model has two modules:

- `Shuffle` (shuffle.dfy) models the helper `shuffleArray`. The method `ShuffleArray` works in place on an `array` and returns that same array. It is proved against the function `Shuffled`, which describes the same loop on sequences. Lemmas about `Shuffled` prove two things: every outcome is a permutation of the input, and every permutation is the outcome of some random source.
- `Teams` (teams.dfy) models the command handler. `EligiblePlayers` is the bot filter, `Half` and `SplitTeams` are the ceil-half cut, and the method `GenerateTeams` is the handler. It builds the player array, calls `ShuffleArray` and forms the reply.

Randomness is a parameter. `Math.random()` becomes a `RandomSource`, a total function from the number of the call (0, 1, 2, … within one shuffle) to a `Fraction`. A `Fraction` is a natural `u` below 2^53 that stands for the value u / 2^53 in [0, 1); restricting the draws to this grid is a choice of the model. The partner index `Math.floor(Math.random() * (i + 1))` is modelled as the real-number floor of u / 2^53 times i + 1, that is `u * (i + 1) / 2^53`; the floating-point rounding of the product is not modelled (see "Left out"). The model computes the quotient with repeated addition and subtraction, and a lemma proves that this is the same quotient. Whether the caller is in a voice channel is a boolean input.

## Model

| member | source | states |
|---|---|---|
| `Shuffle.Partner` | main.js:70 | the swap partner drawn for index i lies in [0, i], so both accesses of the swap stay in bounds |
| `Shuffle.PartnerIsFloor` | main.js:70 | the partner is the real-number floor of the draw u / 2^53 times i + 1, `u * (i + 1) / 2^53`; the rounding of the product is not modelled (see Left out) |
| `Shuffle.DrawFor` | main.js:70 | every partner j in [0, i] is produced by some draw in [0, 1), for i below 2^53 |
| `Shuffle.Swap` | main.js:71 | the destructuring swap on the array's contents: entry i gets the old entry j, entry j the old entry i, nothing else changes, and the length is kept |
| `Shuffle.ShuffleFrom` | main.js:69-72 | the loop iterations for i, i - 1, ..., 1 on the contents: iteration i swaps entry i with the partner drawn from call number length - 1 - i of `Math.random`, and the loop stops once the index reaches 0 |
| `Shuffle.Shuffled` | main.js:68-74 | the contents after the whole loop, started at index length - 1; `ShuffleArray`, `GenerateTeams` and the outcome lemmas are stated against it |
| `Shuffle.SwapPermutes` | main.js:71 | the destructuring swap keeps the multiset of the array's contents |
| `Shuffle.SwapEntries` | main.js:71 | in place on the array: entries i and j trade places and nothing else changes |
| `Shuffle.ShuffleFromPermutes` | main.js:69-72 | the loop iterations from any index down keep the length and the multiset of the contents |
| `Shuffle.ShuffledPermutes` | main.js:68-74 | the whole shuffle returns a permutation of its input, of the same length |
| `Shuffle.ShortUnchanged` | main.js:69 | for length 0 or 1 the loop body never runs and the contents are unchanged |
| `Shuffle.ShuffleFromUsesLaterDraws` | main.js:69-70 | the iterations from index i down depend only on the random calls made from that iteration on |
| `Shuffle.ShuffleFromReaches` | main.js:69-72 | every arrangement that permutes the prefix up to i and keeps the rest is reached from index i: the lemma returns the draws, and every random source that answers with them produces it |
| `Shuffle.ShuffledOutcomes` | main.js:68-74 | t is an outcome of the shuffle of s for some random source exactly when t is a permutation of s |
| `Shuffle.ShuffleArray` | main.js:68-74 | in place on the array: the new contents are the shuffle of the old ones, their multiset is unchanged, and the very same array is returned |
| `Teams.Reply` | main.js:26-63 | the three answers of the handler: the not-in-voice-channel rejection (main.js:26-29), the not-enough-players rejection (main.js:38-41), and the two teams with the footer's player count (main.js:53-63) |
| `Teams.EligiblePlayers` | main.js:36 | the player list is no longer than the roster |
| `Teams.HumanPositionsSound` | main.js:36 | the positions the filter keeps hold members that are not bots |
| `Teams.HumanPositionsIncreasing` | main.js:36 | the kept positions are listed in roster order, each once |
| `Teams.HumanPositionsComplete` | main.js:36 | every position that holds a member who is not a bot is kept |
| `Teams.EligibleInRosterOrder` | main.js:36 | entry k of the player list is the username at the k-th non-bot position of the roster; there are exactly as many players as non-bot members, in roster order, and no bot is among them |
| `Teams.Half` | main.js:49 | Math.ceil(n / 2) is the least h with n <= 2h |
| `Teams.SplitTeams` | main.js:49-51 | team 1 has ceil(n / 2) players, and team 1 followed by team 2 is exactly the shuffled list |
| `Teams.TeamSizes` | main.js:48-51 | team 2 has floor(n / 2) players; with an odd count team 1 has one more, with an even count both are equal |
| `Teams.GenerateTeams` | main.js:22-63 | outside a voice channel the reply is a rejection; with fewer than two non-bot members it is the not-enough-players rejection and no teams are formed; otherwise the two teams are the ceil-half cut of the shuffled player list, together hold exactly the non-bot usernames, and the reported total is their count |

## Left out

- Client setup, gateway intents, the `ready` and `interactionCreate` wiring, the `isChatInputCommand` and command-name dispatch, `.env` loading and `client.login` (main.js:1-20, 76) are platform plumbing and are not modelled.
- The voice-channel membership check (main.js:24-31) reads a discord.js object. The model replaces it with the boolean input `inVoiceChannel`.
- The member collection of the voice channel (main.js:36) is modelled as a sequence in its iteration order. Its keying by member id is not modelled.
- The embed's title, colour, field layout, the `join('\n')` rendering and the `interaction.reply` calls (main.js:26-29, 38-41, 53-63) are rendering and network I/O. `Reply` keeps only which answer is given, the two teams and the footer's player count.
- `Shuffle.Partner`: does not model floating-point rounding. `Math.random()` is read as an exact fraction u / 2^53, and the product with i + 1 is taken exactly. A real double product can round up across an integer: for u = (2^54 - 1) / 3 and i = 2 the exact product is 2 - 2^-53, which rounds to 2.0, so the source draws partner 2 where the model draws 1.
- `Shuffle.Fraction`: the draws are restricted to the multiples of 2^-53 in [0, 1). `Math.random()` may also return doubles off this grid, which are spaced more finely below 0.5; those are not modelled.
- `Shuffle.ShuffledOutcomes`: stated for arrays of at most 2^53 elements, and `Shuffle.DrawFor` for indices below 2^53, the number of grid points of a draw. JavaScript arrays are always shorter than that.
- The uniform distribution of the shuffle's outcomes cannot be stated here, since the model has no probabilities. `Shuffle.ShuffledOutcomes` proves only that exactly the permutations of the input can come out.
- deploy-commands.js, which registers the slash commands through one REST call (deploy-commands.js:16-27), is I/O and is not modelled.
- The `reroll` command is registered (deploy-commands.js:10-13), but main.js has no handler for it, and no per-channel memory of earlier shuffles. The model follows the code: no reroll and no session store with a time window.
