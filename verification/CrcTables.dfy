/** The two CRC tables, in rows of sixteen. */
module CrcTables {
  type Octet = bv8
  type Word = bv32

  function Row0(low: Octet): Word {
    match low
    case 0x0 => 0x00000000 case 0x1 => 0x04c11db7 case 0x2 => 0x09823b6e case 0x3 => 0x0d4326d9
    case 0x4 => 0x130476dc case 0x5 => 0x17c56b6b case 0x6 => 0x1a864db2 case 0x7 => 0x1e475005
    case 0x8 => 0x2608edb8 case 0x9 => 0x22c9f00f case 0xa => 0x2f8ad6d6 case 0xb => 0x2b4bcb61
    case 0xc => 0x350c9b64 case 0xd => 0x31cd86d3 case 0xe => 0x3c8ea00a case _ => 0x384fbdbd
  }

  function Row1(low: Octet): Word {
    match low
    case 0x0 => 0x4c11db70 case 0x1 => 0x48d0c6c7 case 0x2 => 0x4593e01e case 0x3 => 0x4152fda9
    case 0x4 => 0x5f15adac case 0x5 => 0x5bd4b01b case 0x6 => 0x569796c2 case 0x7 => 0x52568b75
    case 0x8 => 0x6a1936c8 case 0x9 => 0x6ed82b7f case 0xa => 0x639b0da6 case 0xb => 0x675a1011
    case 0xc => 0x791d4014 case 0xd => 0x7ddc5da3 case 0xe => 0x709f7b7a case _ => 0x745e66cd
  }

  function Row2(low: Octet): Word {
    match low
    case 0x0 => 0x9823b6e0 case 0x1 => 0x9ce2ab57 case 0x2 => 0x91a18d8e case 0x3 => 0x95609039
    case 0x4 => 0x8b27c03c case 0x5 => 0x8fe6dd8b case 0x6 => 0x82a5fb52 case 0x7 => 0x8664e6e5
    case 0x8 => 0xbe2b5b58 case 0x9 => 0xbaea46ef case 0xa => 0xb7a96036 case 0xb => 0xb3687d81
    case 0xc => 0xad2f2d84 case 0xd => 0xa9ee3033 case 0xe => 0xa4ad16ea case _ => 0xa06c0b5d
  }

  function Row3(low: Octet): Word {
    match low
    case 0x0 => 0xd4326d90 case 0x1 => 0xd0f37027 case 0x2 => 0xddb056fe case 0x3 => 0xd9714b49
    case 0x4 => 0xc7361b4c case 0x5 => 0xc3f706fb case 0x6 => 0xceb42022 case 0x7 => 0xca753d95
    case 0x8 => 0xf23a8028 case 0x9 => 0xf6fb9d9f case 0xa => 0xfbb8bb46 case 0xb => 0xff79a6f1
    case 0xc => 0xe13ef6f4 case 0xd => 0xe5ffeb43 case 0xe => 0xe8bccd9a case _ => 0xec7dd02d
  }

  function Row4(low: Octet): Word {
    match low
    case 0x0 => 0x34867077 case 0x1 => 0x30476dc0 case 0x2 => 0x3d044b19 case 0x3 => 0x39c556ae
    case 0x4 => 0x278206ab case 0x5 => 0x23431b1c case 0x6 => 0x2e003dc5 case 0x7 => 0x2ac12072
    case 0x8 => 0x128e9dcf case 0x9 => 0x164f8078 case 0xa => 0x1b0ca6a1 case 0xb => 0x1fcdbb16
    case 0xc => 0x018aeb13 case 0xd => 0x054bf6a4 case 0xe => 0x0808d07d case _ => 0x0cc9cdca
  }

  function Row5(low: Octet): Word {
    match low
    case 0x0 => 0x7897ab07 case 0x1 => 0x7c56b6b0 case 0x2 => 0x71159069 case 0x3 => 0x75d48dde
    case 0x4 => 0x6b93dddb case 0x5 => 0x6f52c06c case 0x6 => 0x6211e6b5 case 0x7 => 0x66d0fb02
    case 0x8 => 0x5e9f46bf case 0x9 => 0x5a5e5b08 case 0xa => 0x571d7dd1 case 0xb => 0x53dc6066
    case 0xc => 0x4d9b3063 case 0xd => 0x495a2dd4 case 0xe => 0x44190b0d case _ => 0x40d816ba
  }

  function Row6(low: Octet): Word {
    match low
    case 0x0 => 0xaca5c697 case 0x1 => 0xa864db20 case 0x2 => 0xa527fdf9 case 0x3 => 0xa1e6e04e
    case 0x4 => 0xbfa1b04b case 0x5 => 0xbb60adfc case 0x6 => 0xb6238b25 case 0x7 => 0xb2e29692
    case 0x8 => 0x8aad2b2f case 0x9 => 0x8e6c3698 case 0xa => 0x832f1041 case 0xb => 0x87ee0df6
    case 0xc => 0x99a95df3 case 0xd => 0x9d684044 case 0xe => 0x902b669d case _ => 0x94ea7b2a
  }

  function Row7(low: Octet): Word {
    match low
    case 0x0 => 0xe0b41de7 case 0x1 => 0xe4750050 case 0x2 => 0xe9362689 case 0x3 => 0xedf73b3e
    case 0x4 => 0xf3b06b3b case 0x5 => 0xf771768c case 0x6 => 0xfa325055 case 0x7 => 0xfef34de2
    case 0x8 => 0xc6bcf05f case 0x9 => 0xc27dede8 case 0xa => 0xcf3ecb31 case 0xb => 0xcbffd686
    case 0xc => 0xd5b88683 case 0xd => 0xd1799b34 case 0xe => 0xdc3abded case _ => 0xd8fba05a
  }

  function Row8(low: Octet): Word {
    match low
    case 0x0 => 0x690ce0ee case 0x1 => 0x6dcdfd59 case 0x2 => 0x608edb80 case 0x3 => 0x644fc637
    case 0x4 => 0x7a089632 case 0x5 => 0x7ec98b85 case 0x6 => 0x738aad5c case 0x7 => 0x774bb0eb
    case 0x8 => 0x4f040d56 case 0x9 => 0x4bc510e1 case 0xa => 0x46863638 case 0xb => 0x42472b8f
    case 0xc => 0x5c007b8a case 0xd => 0x58c1663d case 0xe => 0x558240e4 case _ => 0x51435d53
  }

  function Row9(low: Octet): Word {
    match low
    case 0x0 => 0x251d3b9e case 0x1 => 0x21dc2629 case 0x2 => 0x2c9f00f0 case 0x3 => 0x285e1d47
    case 0x4 => 0x36194d42 case 0x5 => 0x32d850f5 case 0x6 => 0x3f9b762c case 0x7 => 0x3b5a6b9b
    case 0x8 => 0x0315d626 case 0x9 => 0x07d4cb91 case 0xa => 0x0a97ed48 case 0xb => 0x0e56f0ff
    case 0xc => 0x1011a0fa case 0xd => 0x14d0bd4d case 0xe => 0x19939b94 case _ => 0x1d528623
  }

  function RowA(low: Octet): Word {
    match low
    case 0x0 => 0xf12f560e case 0x1 => 0xf5ee4bb9 case 0x2 => 0xf8ad6d60 case 0x3 => 0xfc6c70d7
    case 0x4 => 0xe22b20d2 case 0x5 => 0xe6ea3d65 case 0x6 => 0xeba91bbc case 0x7 => 0xef68060b
    case 0x8 => 0xd727bbb6 case 0x9 => 0xd3e6a601 case 0xa => 0xdea580d8 case 0xb => 0xda649d6f
    case 0xc => 0xc423cd6a case 0xd => 0xc0e2d0dd case 0xe => 0xcda1f604 case _ => 0xc960ebb3
  }

  function RowB(low: Octet): Word {
    match low
    case 0x0 => 0xbd3e8d7e case 0x1 => 0xb9ff90c9 case 0x2 => 0xb4bcb610 case 0x3 => 0xb07daba7
    case 0x4 => 0xae3afba2 case 0x5 => 0xaafbe615 case 0x6 => 0xa7b8c0cc case 0x7 => 0xa379dd7b
    case 0x8 => 0x9b3660c6 case 0x9 => 0x9ff77d71 case 0xa => 0x92b45ba8 case 0xb => 0x9675461f
    case 0xc => 0x8832161a case 0xd => 0x8cf30bad case 0xe => 0x81b02d74 case _ => 0x857130c3
  }

  function RowC(low: Octet): Word {
    match low
    case 0x0 => 0x5d8a9099 case 0x1 => 0x594b8d2e case 0x2 => 0x5408abf7 case 0x3 => 0x50c9b640
    case 0x4 => 0x4e8ee645 case 0x5 => 0x4a4ffbf2 case 0x6 => 0x470cdd2b case 0x7 => 0x43cdc09c
    case 0x8 => 0x7b827d21 case 0x9 => 0x7f436096 case 0xa => 0x7200464f case 0xb => 0x76c15bf8
    case 0xc => 0x68860bfd case 0xd => 0x6c47164a case 0xe => 0x61043093 case _ => 0x65c52d24
  }

  function RowD(low: Octet): Word {
    match low
    case 0x0 => 0x119b4be9 case 0x1 => 0x155a565e case 0x2 => 0x18197087 case 0x3 => 0x1cd86d30
    case 0x4 => 0x029f3d35 case 0x5 => 0x065e2082 case 0x6 => 0x0b1d065b case 0x7 => 0x0fdc1bec
    case 0x8 => 0x3793a651 case 0x9 => 0x3352bbe6 case 0xa => 0x3e119d3f case 0xb => 0x3ad08088
    case 0xc => 0x2497d08d case 0xd => 0x2056cd3a case 0xe => 0x2d15ebe3 case _ => 0x29d4f654
  }

  function RowE(low: Octet): Word {
    match low
    case 0x0 => 0xc5a92679 case 0x1 => 0xc1683bce case 0x2 => 0xcc2b1d17 case 0x3 => 0xc8ea00a0
    case 0x4 => 0xd6ad50a5 case 0x5 => 0xd26c4d12 case 0x6 => 0xdf2f6bcb case 0x7 => 0xdbee767c
    case 0x8 => 0xe3a1cbc1 case 0x9 => 0xe760d676 case 0xa => 0xea23f0af case 0xb => 0xeee2ed18
    case 0xc => 0xf0a5bd1d case 0xd => 0xf464a0aa case 0xe => 0xf9278673 case _ => 0xfde69bc4
  }

  function RowF(low: Octet): Word {
    match low
    case 0x0 => 0x89b8fd09 case 0x1 => 0x8d79e0be case 0x2 => 0x803ac667 case 0x3 => 0x84fbdbd0
    case 0x4 => 0x9abc8bd5 case 0x5 => 0x9e7d9662 case 0x6 => 0x933eb0bb case 0x7 => 0x97ffad0c
    case 0x8 => 0xafb010b1 case 0x9 => 0xab710d06 case 0xa => 0xa6322bdf case 0xb => 0xa2f33668
    case 0xc => 0xbcb4666d case 0xd => 0xb8757bda case 0xe => 0xb5365d03 case _ => 0xb1f740b4
  }

  function LowerTable(i: Octet): Word {
    var low := i & 0x0f;
    match i >> 4
    case 0x0 => Row0(low) case 0x1 => Row1(low)
    case 0x2 => Row2(low) case 0x3 => Row3(low)
    case 0x4 => Row4(low) case 0x5 => Row5(low)
    case 0x6 => Row6(low) case _ => Row7(low)
  }

  function UpperTable(i: Octet): Word {
    var low := i & 0x0f;
    match i >> 4
    case 0x8 => Row8(low) case 0x9 => Row9(low)
    case 0xa => RowA(low) case 0xb => RowB(low)
    case 0xc => RowC(low) case 0xd => RowD(low)
    case 0xe => RowE(low) case _ => RowF(low)
  }

  /** The table of crc.c. */
  function Table(i: Octet): Word {
    if i < 0x80 then LowerTable(i) else UpperTable(i)
  }

  function MirrorRow0(low: Octet): Word {
    match low
    case 0x0 => 0x00000000 case 0x1 => 0x77073096 case 0x2 => 0xee0e612c case 0x3 => 0x990951ba
    case 0x4 => 0x076dc419 case 0x5 => 0x706af48f case 0x6 => 0xe963a535 case 0x7 => 0x9e6495a3
    case 0x8 => 0x0edb8832 case 0x9 => 0x79dcb8a4 case 0xa => 0xe0d5e91e case 0xb => 0x97d2d988
    case 0xc => 0x09b64c2b case 0xd => 0x7eb17cbd case 0xe => 0xe7b82d07 case _ => 0x90bf1d91
  }

  function MirrorRow1(low: Octet): Word {
    match low
    case 0x0 => 0x1db71064 case 0x1 => 0x6ab020f2 case 0x2 => 0xf3b97148 case 0x3 => 0x84be41de
    case 0x4 => 0x1adad47d case 0x5 => 0x6ddde4eb case 0x6 => 0xf4d4b551 case 0x7 => 0x83d385c7
    case 0x8 => 0x136c9856 case 0x9 => 0x646ba8c0 case 0xa => 0xfd62f97a case 0xb => 0x8a65c9ec
    case 0xc => 0x14015c4f case 0xd => 0x63066cd9 case 0xe => 0xfa0f3d63 case _ => 0x8d080df5
  }

  function MirrorRow2(low: Octet): Word {
    match low
    case 0x0 => 0x3b6e20c8 case 0x1 => 0x4c69105e case 0x2 => 0xd56041e4 case 0x3 => 0xa2677172
    case 0x4 => 0x3c03e4d1 case 0x5 => 0x4b04d447 case 0x6 => 0xd20d85fd case 0x7 => 0xa50ab56b
    case 0x8 => 0x35b5a8fa case 0x9 => 0x42b2986c case 0xa => 0xdbbbc9d6 case 0xb => 0xacbcf940
    case 0xc => 0x32d86ce3 case 0xd => 0x45df5c75 case 0xe => 0xdcd60dcf case _ => 0xabd13d59
  }

  function MirrorRow3(low: Octet): Word {
    match low
    case 0x0 => 0x26d930ac case 0x1 => 0x51de003a case 0x2 => 0xc8d75180 case 0x3 => 0xbfd06116
    case 0x4 => 0x21b4f4b5 case 0x5 => 0x56b3c423 case 0x6 => 0xcfba9599 case 0x7 => 0xb8bda50f
    case 0x8 => 0x2802b89e case 0x9 => 0x5f058808 case 0xa => 0xc60cd9b2 case 0xb => 0xb10be924
    case 0xc => 0x2f6f7c87 case 0xd => 0x58684c11 case 0xe => 0xc1611dab case _ => 0xb6662d3d
  }

  function MirrorRow4(low: Octet): Word {
    match low
    case 0x0 => 0x76dc4190 case 0x1 => 0x01db7106 case 0x2 => 0x98d220bc case 0x3 => 0xefd5102a
    case 0x4 => 0x71b18589 case 0x5 => 0x06b6b51f case 0x6 => 0x9fbfe4a5 case 0x7 => 0xe8b8d433
    case 0x8 => 0x7807c9a2 case 0x9 => 0x0f00f934 case 0xa => 0x9609a88e case 0xb => 0xe10e9818
    case 0xc => 0x7f6a0dbb case 0xd => 0x086d3d2d case 0xe => 0x91646c97 case _ => 0xe6635c01
  }

  function MirrorRow5(low: Octet): Word {
    match low
    case 0x0 => 0x6b6b51f4 case 0x1 => 0x1c6c6162 case 0x2 => 0x856530d8 case 0x3 => 0xf262004e
    case 0x4 => 0x6c0695ed case 0x5 => 0x1b01a57b case 0x6 => 0x8208f4c1 case 0x7 => 0xf50fc457
    case 0x8 => 0x65b0d9c6 case 0x9 => 0x12b7e950 case 0xa => 0x8bbeb8ea case 0xb => 0xfcb9887c
    case 0xc => 0x62dd1ddf case 0xd => 0x15da2d49 case 0xe => 0x8cd37cf3 case _ => 0xfbd44c65
  }

  function MirrorRow6(low: Octet): Word {
    match low
    case 0x0 => 0x4db26158 case 0x1 => 0x3ab551ce case 0x2 => 0xa3bc0074 case 0x3 => 0xd4bb30e2
    case 0x4 => 0x4adfa541 case 0x5 => 0x3dd895d7 case 0x6 => 0xa4d1c46d case 0x7 => 0xd3d6f4fb
    case 0x8 => 0x4369e96a case 0x9 => 0x346ed9fc case 0xa => 0xad678846 case 0xb => 0xda60b8d0
    case 0xc => 0x44042d73 case 0xd => 0x33031de5 case 0xe => 0xaa0a4c5f case _ => 0xdd0d7cc9
  }

  function MirrorRow7(low: Octet): Word {
    match low
    case 0x0 => 0x5005713c case 0x1 => 0x270241aa case 0x2 => 0xbe0b1010 case 0x3 => 0xc90c2086
    case 0x4 => 0x5768b525 case 0x5 => 0x206f85b3 case 0x6 => 0xb966d409 case 0x7 => 0xce61e49f
    case 0x8 => 0x5edef90e case 0x9 => 0x29d9c998 case 0xa => 0xb0d09822 case 0xb => 0xc7d7a8b4
    case 0xc => 0x59b33d17 case 0xd => 0x2eb40d81 case 0xe => 0xb7bd5c3b case _ => 0xc0ba6cad
  }

  function MirrorRow8(low: Octet): Word {
    match low
    case 0x0 => 0xedb88320 case 0x1 => 0x9abfb3b6 case 0x2 => 0x03b6e20c case 0x3 => 0x74b1d29a
    case 0x4 => 0xead54739 case 0x5 => 0x9dd277af case 0x6 => 0x04db2615 case 0x7 => 0x73dc1683
    case 0x8 => 0xe3630b12 case 0x9 => 0x94643b84 case 0xa => 0x0d6d6a3e case 0xb => 0x7a6a5aa8
    case 0xc => 0xe40ecf0b case 0xd => 0x9309ff9d case 0xe => 0x0a00ae27 case _ => 0x7d079eb1
  }

  function MirrorRow9(low: Octet): Word {
    match low
    case 0x0 => 0xf00f9344 case 0x1 => 0x8708a3d2 case 0x2 => 0x1e01f268 case 0x3 => 0x6906c2fe
    case 0x4 => 0xf762575d case 0x5 => 0x806567cb case 0x6 => 0x196c3671 case 0x7 => 0x6e6b06e7
    case 0x8 => 0xfed41b76 case 0x9 => 0x89d32be0 case 0xa => 0x10da7a5a case 0xb => 0x67dd4acc
    case 0xc => 0xf9b9df6f case 0xd => 0x8ebeeff9 case 0xe => 0x17b7be43 case _ => 0x60b08ed5
  }

  function MirrorRowA(low: Octet): Word {
    match low
    case 0x0 => 0xd6d6a3e8 case 0x1 => 0xa1d1937e case 0x2 => 0x38d8c2c4 case 0x3 => 0x4fdff252
    case 0x4 => 0xd1bb67f1 case 0x5 => 0xa6bc5767 case 0x6 => 0x3fb506dd case 0x7 => 0x48b2364b
    case 0x8 => 0xd80d2bda case 0x9 => 0xaf0a1b4c case 0xa => 0x36034af6 case 0xb => 0x41047a60
    case 0xc => 0xdf60efc3 case 0xd => 0xa867df55 case 0xe => 0x316e8eef case _ => 0x4669be79
  }

  function MirrorRowB(low: Octet): Word {
    match low
    case 0x0 => 0xcb61b38c case 0x1 => 0xbc66831a case 0x2 => 0x256fd2a0 case 0x3 => 0x5268e236
    case 0x4 => 0xcc0c7795 case 0x5 => 0xbb0b4703 case 0x6 => 0x220216b9 case 0x7 => 0x5505262f
    case 0x8 => 0xc5ba3bbe case 0x9 => 0xb2bd0b28 case 0xa => 0x2bb45a92 case 0xb => 0x5cb36a04
    case 0xc => 0xc2d7ffa7 case 0xd => 0xb5d0cf31 case 0xe => 0x2cd99e8b case _ => 0x5bdeae1d
  }

  function MirrorRowC(low: Octet): Word {
    match low
    case 0x0 => 0x9b64c2b0 case 0x1 => 0xec63f226 case 0x2 => 0x756aa39c case 0x3 => 0x026d930a
    case 0x4 => 0x9c0906a9 case 0x5 => 0xeb0e363f case 0x6 => 0x72076785 case 0x7 => 0x05005713
    case 0x8 => 0x95bf4a82 case 0x9 => 0xe2b87a14 case 0xa => 0x7bb12bae case 0xb => 0x0cb61b38
    case 0xc => 0x92d28e9b case 0xd => 0xe5d5be0d case 0xe => 0x7cdcefb7 case _ => 0x0bdbdf21
  }

  function MirrorRowD(low: Octet): Word {
    match low
    case 0x0 => 0x86d3d2d4 case 0x1 => 0xf1d4e242 case 0x2 => 0x68ddb3f8 case 0x3 => 0x1fda836e
    case 0x4 => 0x81be16cd case 0x5 => 0xf6b9265b case 0x6 => 0x6fb077e1 case 0x7 => 0x18b74777
    case 0x8 => 0x88085ae6 case 0x9 => 0xff0f6a70 case 0xa => 0x66063bca case 0xb => 0x11010b5c
    case 0xc => 0x8f659eff case 0xd => 0xf862ae69 case 0xe => 0x616bffd3 case _ => 0x166ccf45
  }

  function MirrorRowE(low: Octet): Word {
    match low
    case 0x0 => 0xa00ae278 case 0x1 => 0xd70dd2ee case 0x2 => 0x4e048354 case 0x3 => 0x3903b3c2
    case 0x4 => 0xa7672661 case 0x5 => 0xd06016f7 case 0x6 => 0x4969474d case 0x7 => 0x3e6e77db
    case 0x8 => 0xaed16a4a case 0x9 => 0xd9d65adc case 0xa => 0x40df0b66 case 0xb => 0x37d83bf0
    case 0xc => 0xa9bcae53 case 0xd => 0xdebb9ec5 case 0xe => 0x47b2cf7f case _ => 0x30b5ffe9
  }

  function MirrorRowF(low: Octet): Word {
    match low
    case 0x0 => 0xbdbdf21c case 0x1 => 0xcabac28a case 0x2 => 0x53b39330 case 0x3 => 0x24b4a3a6
    case 0x4 => 0xbad03605 case 0x5 => 0xcdd70693 case 0x6 => 0x54de5729 case 0x7 => 0x23d967bf
    case 0x8 => 0xb3667a2e case 0x9 => 0xc4614ab8 case 0xa => 0x5d681b02 case 0xb => 0x2a6f2b94
    case 0xc => 0xb40bbe37 case 0xd => 0xc30c8ea1 case 0xe => 0x5a05df1b case _ => 0x2d02ef8d
  }

  function LowerMirrorTable(i: Octet): Word {
    var low := i & 0x0f;
    match i >> 4
    case 0x0 => MirrorRow0(low) case 0x1 => MirrorRow1(low)
    case 0x2 => MirrorRow2(low) case 0x3 => MirrorRow3(low)
    case 0x4 => MirrorRow4(low) case 0x5 => MirrorRow5(low)
    case 0x6 => MirrorRow6(low) case _ => MirrorRow7(low)
  }

  function UpperMirrorTable(i: Octet): Word {
    var low := i & 0x0f;
    match i >> 4
    case 0x8 => MirrorRow8(low) case 0x9 => MirrorRow9(low)
    case 0xa => MirrorRowA(low) case 0xb => MirrorRowB(low)
    case 0xc => MirrorRowC(low) case 0xd => MirrorRowD(low)
    case 0xe => MirrorRowE(low) case _ => MirrorRowF(low)
  }

  /** The table of crc32.c. */
  function MirrorTable(i: Octet): Word {
    if i < 0x80 then LowerMirrorTable(i) else UpperMirrorTable(i)
  }
}
