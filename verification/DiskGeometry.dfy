// The simulated disk: one surface, with tracks of equally many sectors.

module DiskGeometry {
  const SECTOR_SIZE: nat := 128
  const SECTORS_PER_TRACK: nat := 32
  const NUM_TRACKS: nat := 32
  const NUM_SECTORS: nat := SECTORS_PER_TRACK * NUM_TRACKS
}
